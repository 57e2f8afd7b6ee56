/** The uv installer bootstrap (vantor/uv_manager.py): where the binary
    lives, which release asset is fetched for a platform, the containment
    check applied to every archive member, the search for the binary in the
    unpacked tree, and the outcomes `download_uv` and `verify_uv` report.
    The network reply, the archive libraries, the file system and the
    `uv --version` process are parameters. */
module UvManager {
  import opened Wrappers
  import opened Text

  const UvVersion := "0.10.6"
  const ReleaseBase := "https://github.com/astral-sh/uv/releases/download/"

  /** The five release targets the platform table can name. */
  const ReleaseTargets := [
    "aarch64-apple-darwin", "x86_64-apple-darwin", "x86_64-pc-windows-msvc",
    "aarch64-unknown-linux-gnu", "x86_64-unknown-linux-gnu"]

  // ---------------------------------------------------------------------
  // Binary location and release asset
  // ---------------------------------------------------------------------

  function BinaryName(system: string): string {
    if system == "win32" then "uv.exe" else "uv"
  }

  /** `get_uv_path`: the binary inside the uv directory. */
  function UvPath(uvDir: string, system: string, sep: char): (r: string)
    requires sep == '/' || sep == '\\'
    ensures StartsWith(r, uvDir)
    ensures Basename(r, sep) == BinaryName(system)
    ensures EndsWith(r, ".exe") <==> system == "win32"
  {
    var name := BinaryName(system);
    JoinedBasename(uvDir, name, sep);
    var r := PathJoin(uvDir, name, sep);
    ExeSuffix(r, system);
    r
  }

  /** A path ending in the binary name ends in ".exe" exactly on win32. */
  lemma ExeSuffix(r: string, system: string)
    requires EndsWith(r, BinaryName(system))
    ensures EndsWith(r, ".exe") <==> system == "win32"
  {
    if system == "win32" {
      assert r[|r| - 4..] == r[|r| - 6..][2..];
    } else {
      assert r[|r| - 1] == r[|r| - 2..][1];
      if |r| >= 4 {
        assert r[|r| - 1] == r[|r| - 4..][3];
      }
    }
  }

  /** `platform.machine().lower() in ("arm64", "aarch64")`. */
  predicate IsArm(machine: string) {
    Lower(machine) == "arm64" || Lower(machine) == "aarch64"
  }

  /** `_get_uv_platform_info`: the release target and archive extension. */
  function PlatformInfo(system: string, machine: string): (r: (string, string))
    ensures r.1 == ".zip" <==> system == "win32"
    ensures r.1 == ".zip" || r.1 == ".tar.gz"
    ensures StartsWith(r.0, "aarch64-") <==> system != "win32" && IsArm(machine)
  {
    X86TargetsAreNotArm();
    var arm := IsArm(machine);
    if system == "darwin" then
      if arm then ("aarch64-apple-darwin", ".tar.gz")
      else ("x86_64-apple-darwin", ".tar.gz")
    else if system == "win32" then ("x86_64-pc-windows-msvc", ".zip")
    else if arm then ("aarch64-unknown-linux-gnu", ".tar.gz")
    else ("x86_64-unknown-linux-gnu", ".tar.gz")
  }

  /** The table is total: every platform gets one of the five release
      targets, x86_64 unless ARM. */
  lemma PlatformTargets(system: string, machine: string)
    ensures PlatformInfo(system, machine).0 in ReleaseTargets
    ensures !StartsWith(PlatformInfo(system, machine).0, "aarch64-") ==>
              StartsWith(PlatformInfo(system, machine).0, "x86_64-")
  {
    var t := PlatformInfo(system, machine).0;
    if t == "x86_64-apple-darwin" {
      assert t[..7] == "x86_64-";
    } else if t == "x86_64-pc-windows-msvc" {
      assert t[..7] == "x86_64-";
    } else if t == "x86_64-unknown-linux-gnu" {
      assert t[..7] == "x86_64-";
    }
  }

  /** darwin gets an Apple build, win32 the MSVC build whatever the
      machine, and anything else a Linux build. */
  lemma PlatformSystems(system: string, machine: string)
    ensures system == "darwin" ==> EndsWith(PlatformInfo(system, machine).0, "-apple-darwin")
    ensures system == "win32" ==> PlatformInfo(system, machine).0 == "x86_64-pc-windows-msvc"
    ensures system != "darwin" && system != "win32" ==>
              EndsWith(PlatformInfo(system, machine).0, "-unknown-linux-gnu")
  {
    AppleSuffixes();
    LinuxSuffixes();
  }

  lemma AppleSuffixes()
    ensures EndsWith("aarch64-apple-darwin", "-apple-darwin")
    ensures EndsWith("x86_64-apple-darwin", "-apple-darwin")
  {
    assert "aarch64-apple-darwin"[7..] == "-apple-darwin";
    assert "x86_64-apple-darwin"[6..] == "-apple-darwin";
  }

  lemma LinuxSuffixes()
    ensures EndsWith("aarch64-unknown-linux-gnu", "-unknown-linux-gnu")
    ensures EndsWith("x86_64-unknown-linux-gnu", "-unknown-linux-gnu")
  {
    assert "aarch64-unknown-linux-gnu"[7..] == "-unknown-linux-gnu";
    assert "x86_64-unknown-linux-gnu"[6..] == "-unknown-linux-gnu";
  }

  lemma X86TargetsAreNotArm()
    ensures !StartsWith("x86_64-apple-darwin", "aarch64-")
    ensures !StartsWith("x86_64-pc-windows-msvc", "aarch64-")
    ensures !StartsWith("x86_64-unknown-linux-gnu", "aarch64-")
  {
    assert "x86_64-apple-darwin"[0] != "aarch64-"[0];
    assert "x86_64-pc-windows-msvc"[0] != "aarch64-"[0];
    assert "x86_64-unknown-linux-gnu"[0] != "aarch64-"[0];
  }

  /** The fixed part of every asset URL. */
  const AssetUrlPrefix := ReleaseBase + UvVersion + "/uv-"

  /** `get_uv_download_url`. */
  function DownloadUrl(system: string, machine: string): (url: string)
    ensures StartsWith(url, AssetUrlPrefix)
    ensures EndsWith(url, ".zip") <==> system == "win32"
  {
    var (target, ext) := PlatformInfo(system, machine);
    var url := AssetUrlPrefix + target + ext;
    assert url[..|AssetUrlPrefix|] == AssetUrlPrefix;
    assert url[|url| - |ext|..] == ext;
    assert ext == ".tar.gz" ==> url[|url| - 1] == 'z';
    url
  }

  /** Reads the release target and extension back out of an asset URL. */
  function ParseAssetUrl(url: string): (r: Option<(string, string)>)
    ensures r.Some? ==> url == AssetUrlPrefix + r.value.0 + r.value.1
  {
    if !StartsWith(url, AssetUrlPrefix) then None
    else
      var rest := url[|AssetUrlPrefix|..];
      assert url == AssetUrlPrefix + rest;
      if EndsWith(rest, ".zip") then
        assert rest == rest[..|rest| - 4] + ".zip";
        Some((rest[..|rest| - 4], ".zip"))
      else if EndsWith(rest, ".tar.gz") then
        assert rest == rest[..|rest| - 7] + ".tar.gz";
        Some((rest[..|rest| - 7], ".tar.gz"))
      else None
  }

  /** The URL names the platform it was built for: no two platform answers
      share a download URL. */
  lemma DownloadUrlRoundTrip(system: string, machine: string)
    ensures ParseAssetUrl(DownloadUrl(system, machine)) == Some(PlatformInfo(system, machine))
  {
    var (target, ext) := PlatformInfo(system, machine);
    var url := DownloadUrl(system, machine);
    var rest := url[|AssetUrlPrefix|..];
    assert rest == target + ext;
    if ext == ".tar.gz" {
      assert rest[|rest| - 1] == 'z';
      assert rest[|rest| - 7..] == ext;
    } else {
      assert rest[|rest| - 4..] == ext;
    }
  }

  /** The temporary archive carries the platform's extension, so the
      `endswith(".zip")` test that picks the unpacker chooses zip exactly
      on win32. */
  lemma TempArchiveFormat(stem: string, system: string, machine: string)
    ensures EndsWith(stem + PlatformInfo(system, machine).1, ".zip") <==> system == "win32"
  {
    var p := stem + PlatformInfo(system, machine).1;
    if system == "win32" {
      assert p[|p| - 4..] == ".zip";
    } else {
      assert p[|p| - 1] == 'z';
    }
  }

  // ---------------------------------------------------------------------
  // Safe extraction
  // ---------------------------------------------------------------------

  /** An archive member: its stored name, the real path that joining it
      onto the destination resolves to, and the exception writing it out
      raises, if any (a `FilterError` from tar's `data` filter, or an
      `OSError`). */
  datatype Member = Member(name: string, resolved: string, failure: Option<string>)

  datatype ArchiveKind = Tar | Zip

  /** The containment test: the resolved path is the destination itself or
      lies below it. */
  predicate Contained(p: string, dest: string, sep: char) {
    p == dest || StartsWith(p, dest + [sep])
  }

  /** The member passes the containment test and is written out without
      an exception. */
  predicate Extracts(m: Member, dest: string, sep: char) {
    Contained(m.resolved, dest, sep) && m.failure.None?
  }

  /** Every member is contained and written out. */
  predicate AllExtract(members: seq<Member>, dest: string, sep: char) {
    forall i :: 0 <= i < |members| ==> Extracts(members[i], dest, sep)
  }

  function TraversalMessage(kind: ArchiveKind, name: string): string {
    "Attempted path traversal in " + (if kind == Tar then "tar" else "zip") + " archive: " + name
  }

  /** What extraction did: the members written, in order, and the error it
      stopped with. */
  datatype Extraction = Extraction(extracted: seq<Member>, error: Option<string>)

  /** `_safe_extract_tar` / `_safe_extract_zip`: members are checked and
      extracted in archive order; the first member that escapes stops the
      extraction with the traversal error, and the first contained member
      whose extraction raises stops it with that exception's text. Neither
      counts as extracted. */
  function SafeExtract(members: seq<Member>, dest: string, sep: char, kind: ArchiveKind): (r: Extraction)
    ensures r.extracted <= members
    ensures forall m :: m in r.extracted ==> Extracts(m, dest, sep)
    ensures r.error.None? <==> r.extracted == members
    ensures r.error.Some? ==>
              var m := members[|r.extracted|];
              && |r.extracted| < |members|
              && !Extracts(m, dest, sep)
              && (!Contained(m.resolved, dest, sep) ==> r.error.value == TraversalMessage(kind, m.name))
              && (Contained(m.resolved, dest, sep) ==> r.error == m.failure)
    decreases |members|
  {
    if |members| == 0 then Extraction([], None)
    else if !Contained(members[0].resolved, dest, sep) then
      Extraction([], Some(TraversalMessage(kind, members[0].name)))
    else if members[0].failure.Some? then
      Extraction([], members[0].failure)
    else
      var rest := SafeExtract(members[1..], dest, sep, kind);
      assert members == [members[0]] + members[1..];
      Extraction([members[0]] + rest.extracted, rest.error)
  }

  /** Extraction finishes without error exactly when every member is
      contained and written out. */
  lemma ExtractionSucceedsIff(members: seq<Member>, dest: string, sep: char, kind: ArchiveKind)
    ensures SafeExtract(members, dest, sep, kind).error.None? <==> AllExtract(members, dest, sep)
  {
    var r := SafeExtract(members, dest, sep, kind);
    if r.error.None? {
      forall i | 0 <= i < |members|
        ensures Extracts(members[i], dest, sep)
      {
        assert members[i] in r.extracted;
      }
    } else {
      assert !Extracts(members[|r.extracted|], dest, sep);
    }
  }

  /** Member `k` is the first that resolves outside the destination, every
      member before it having been written out. */
  predicate FirstEscape(members: seq<Member>, dest: string, sep: char, k: nat) {
    && k < |members| && !Contained(members[k].resolved, dest, sep)
    && forall j :: 0 <= j < k ==> Extracts(members[j], dest, sep)
  }

  /** Member `k` is contained but the first whose extraction raises, every
      member before it having been written out. */
  predicate FirstFailure(members: seq<Member>, dest: string, sep: char, k: nat) {
    && k < |members| && Contained(members[k].resolved, dest, sep) && members[k].failure.Some?
    && forall j :: 0 <= j < k ==> Extracts(members[j], dest, sep)
  }

  /** Extraction stops at the first member that escapes the destination,
      and its message names that member. */
  lemma {:induction false} FirstEscapeReported(members: seq<Member>, dest: string, sep: char,
                                               kind: ArchiveKind, k: nat)
    requires FirstEscape(members, dest, sep, k)
    ensures SafeExtract(members, dest, sep, kind).error == Some(TraversalMessage(kind, members[k].name))
  {
    if k > 0 {
      assert Extracts(members[0], dest, sep);
      FirstEscapeReported(members[1..], dest, sep, kind, k - 1);
    }
  }

  /** An exception while writing out a contained member stops the
      extraction with that exception's text, even when a later member
      would have escaped. */
  lemma {:induction false} FirstFailureReported(members: seq<Member>, dest: string, sep: char,
                                                kind: ArchiveKind, k: nat)
    requires FirstFailure(members, dest, sep, k)
    ensures SafeExtract(members, dest, sep, kind).error == members[k].failure
  {
    if k > 0 {
      assert Extracts(members[0], dest, sep);
      FirstFailureReported(members[1..], dest, sep, kind, k - 1);
    }
  }

  /** The error extraction stops with comes from the first member that is
      not written out: the traversal message if it escapes, its exception's
      text otherwise. */
  lemma ExtractionErrorNamesFirst(members: seq<Member>, dest: string, sep: char, kind: ArchiveKind)
    ensures forall k: nat :: FirstEscape(members, dest, sep, k) ==>
              SafeExtract(members, dest, sep, kind).error == Some(TraversalMessage(kind, members[k].name))
    ensures forall k: nat :: FirstFailure(members, dest, sep, k) ==>
              SafeExtract(members, dest, sep, kind).error == members[k].failure
  {
    forall k: nat | FirstEscape(members, dest, sep, k) {
      FirstEscapeReported(members, dest, sep, kind, k);
    }
    forall k: nat | FirstFailure(members, dest, sep, k) {
      FirstFailureReported(members, dest, sep, kind, k);
    }
  }

  /** A sibling directory whose name merely starts with the destination's
      name is rejected: the test compares against `dest + sep`, not `dest`. */
  lemma SiblingPrefixRejected(dest: string, tail: string, sep: char)
    requires |tail| > 0 && tail[0] != sep
    ensures !Contained(dest + tail, dest, sep)
  {
    var p := dest + tail;
    if |dest + [sep]| <= |p| {
      assert p[|dest|] == tail[0];
      assert (dest + [sep])[|dest|] == sep;
    }
  }

  // ---------------------------------------------------------------------
  // Looking for the binary in the unpacked tree
  // ---------------------------------------------------------------------

  /** One directory as `os.walk` yields it: its path and its file names. */
  datatype WalkStep = WalkStep(root: string, files: seq<string>)

  /** `_find_file_in_dir`: the first directory, in walk order, holding a
      file of that name. */
  function FindFile(walk: seq<WalkStep>, filename: string, sep: char): (r: Option<string>)
    ensures r.None? <==> forall i :: 0 <= i < |walk| ==> filename !in walk[i].files
    ensures r.Some? ==> exists i :: 0 <= i < |walk| && FoundAt(walk, filename, i) && r.value == PathJoin(walk[i].root, filename, sep)
    decreases |walk|
  {
    if |walk| == 0 then None
    else if filename in walk[0].files then
      assert FoundAt(walk, filename, 0);
      Some(PathJoin(walk[0].root, filename, sep))
    else
      var r := FindFile(walk[1..], filename, sep);
      if r.Some? then
        var i :| 0 <= i < |walk[1..]| && FoundAt(walk[1..], filename, i) && r.value == PathJoin(walk[1..][i].root, filename, sep);
        FoundLater(walk, filename, i);
        r
      else
        assert forall i :: 1 <= i < |walk| ==> walk[i] == walk[1..][i - 1];
        r
  }

  /** The first hit in the walk after the first directory, when the first
      directory misses, is the first hit of the whole walk. */
  lemma FoundLater(walk: seq<WalkStep>, filename: string, i: nat)
    requires |walk| > 0 && filename !in walk[0].files && FoundAt(walk[1..], filename, i)
    ensures FoundAt(walk, filename, i + 1) && walk[i + 1] == walk[1..][i]
  {
    forall j | 0 <= j < i + 1
      ensures filename !in walk[j].files
    {
      if j > 0 {
        assert walk[j] == walk[1..][j - 1];
      }
    }
  }

  /** Directory `i` is the first of the walk that holds `filename`. */
  predicate FoundAt(walk: seq<WalkStep>, filename: string, i: nat) {
    && i < |walk|
    && filename in walk[i].files
    && forall j :: 0 <= j < i ==> filename !in walk[j].files
  }

  /** All file names of the walk, directory by directory. */
  function AllFiles(walk: seq<WalkStep>): seq<string> {
    if |walk| == 0 then [] else walk[0].files + AllFiles(walk[1..])
  }

  /** The listing loop of `download_uv`: whole directories are appended
      until at least 20 names have been gathered. */
  function GatherFiles(walk: seq<WalkStep>, found: seq<string>): seq<string>
    decreases |walk|
  {
    if |walk| == 0 then found
    else
      var more := found + walk[0].files;
      if |more| >= 20 then more else GatherFiles(walk[1..], more)
  }

  /** `found_files[:20]` after the listing loop. */
  function ListedFiles(walk: seq<WalkStep>): (r: seq<string>)
    ensures |r| <= 20
  {
    var found := GatherFiles(walk, []);
    if |found| <= 20 then found else found[..20]
  }

  /** The loop gathers a prefix of the whole listing, and stops short of the
      whole listing only once it holds 20 names. */
  lemma {:induction false} GatherFilesPrefix(walk: seq<WalkStep>, found: seq<string>)
    requires |found| < 20
    ensures GatherFiles(walk, found) <= found + AllFiles(walk)
    ensures |GatherFiles(walk, found)| >= 20 || GatherFiles(walk, found) == found + AllFiles(walk)
    decreases |walk|
  {
    if |walk| > 0 {
      var more := found + walk[0].files;
      assert found + AllFiles(walk) == more + AllFiles(walk[1..]);
      if |more| < 20 {
        GatherFilesPrefix(walk[1..], more);
      }
    }
  }

  /** The names listed are the first twenty of the whole walk (all of them
      when there are fewer). */
  lemma ListedFilesAreFirstTwenty(walk: seq<WalkStep>)
    ensures var all := AllFiles(walk);
            ListedFiles(walk) == all[..if |all| < 20 then |all| else 20]
  {
    GatherFilesPrefix(walk, []);
    assert [] + AllFiles(walk) == AllFiles(walk);
  }

  function NotFoundMessage(binary: string, walk: seq<WalkStep>): string {
    "uv binary not found in archive. Expected '" + binary + "'. Files found (up to 20): "
    + Join(ListedFiles(walk), ", ")
  }

  // ---------------------------------------------------------------------
  // Verifying the binary
  // ---------------------------------------------------------------------

  /** How a subprocess run ended: it completed, it hit its timeout, or
      starting it raised an exception with the given text. */
  datatype Run = Completed(returncode: int, stdout: string, stderr: string) | TimedOut | Raised(error: string)

  const VerifyFailedPrefix := "Verification failed: "

  /** The error text a failed `uv --version` reports before truncation. */
  function FailureText(stderr: string): string {
    if stderr == "" then "Unknown error" else stderr
  }

  /** `verify_uv`: `present` says whether the binary exists at `uvPath`. */
  function VerifyUv(present: bool, uvPath: string, run: Run): (r: (bool, string))
    ensures r.0 <==> present && run.Completed? && run.returncode == 0
    ensures r.0 ==> r.1 == Strip(run.stdout)
    ensures !present ==> r.1 == "uv not found at " + uvPath
    ensures present && run.TimedOut? ==> r.1 == "uv verification timed out"
    ensures present && run.Completed? && run.returncode != 0 ==>
              && StartsWith(r.1, VerifyFailedPrefix)
              && |r.1| <= |VerifyFailedPrefix| + 100
              && StartsWith(FailureText(run.stderr), r.1[|VerifyFailedPrefix|..])
    ensures present && run.Completed? && run.returncode != 0 ==>
              r.1 == VerifyFailedPrefix + (if |FailureText(run.stderr)| <= 100 then FailureText(run.stderr)
                                           else FailureText(run.stderr)[..100])
    ensures present && run.Raised? ==>
              && StartsWith(r.1, "Verification error: ")
              && StartsWith(run.error, r.1[|"Verification error: "|..])
    ensures present && run.Raised? ==>
              r.1 == "Verification error: " + (if |run.error| <= 100 then run.error else run.error[..100])
  {
    if !present then (false, "uv not found at " + uvPath)
    else match run
      case Completed(rc, out, err) =>
        if rc == 0 then (true, Strip(out))
        else
          var d := Take(FailureText(err), 100);
          assert (VerifyFailedPrefix + d)[|VerifyFailedPrefix|..] == d;
          (false, VerifyFailedPrefix + d)
      case TimedOut => (false, "uv verification timed out")
      case Raised(e) =>
        var d := Take(e, 100);
        assert ("Verification error: " + d)[|"Verification error: "|..] == d;
        (false, "Verification error: " + d)
  }

  /** A short stderr is reported whole; an empty one as "Unknown error". */
  lemma VerifyReportsShortStderr(uvPath: string, rc: int, out: string, err: string)
    requires rc != 0 && |err| <= 100
    ensures VerifyUv(true, uvPath, Completed(rc, out, err)).1 ==
            VerifyFailedPrefix + (if err == "" then "Unknown error" else err)
  {
  }

  // ---------------------------------------------------------------------
  // Download and install
  // ---------------------------------------------------------------------

  /** The reply of the blocking network request. */
  datatype Reply = NetworkError(message: string) | Content(size: nat)

  /** What `download_uv` observes inside its `try`, in the order it
      observes it: whether uv is already installed, the platform, the
      answers of the two cancellation checks, the reply, the exceptions the
      file steps raise (writing the archive; recreating the uv directory;
      opening the archive; copying the binary and setting its mode), the
      members of the archive with their resolved paths and extraction
      exceptions, the walk of the unpacked tree, and the `uv --version`
      run. Creating the temporary archive file, before the `try`, is taken
      to succeed. */
  datatype Installation = Installation(
    uvPresent: bool,
    system: string,
    machine: string,
    sep: char,
    uvDir: string,
    cancelledBeforeRequest: bool,
    cancelledAfterRequest: bool,
    reply: Reply,
    saveError: Option<string>,
    prepareError: Option<string>,
    openError: Option<string>,
    extractDir: string,
    members: seq<Member>,
    walk: seq<WalkStep>,
    copyError: Option<string>,
    check: Run)

  /** What `download_uv` returns, with the percentages it reported. */
  datatype Outcome = Outcome(ok: bool, message: string, progress: seq<nat>)

  /** The percentages `download_uv` reports, in order; a run reports a
      prefix of them. */
  const Stages: seq<nat> := [0, 5, 50, 60, 80, 100]

  predicate StrictlyIncreasing(s: seq<nat>) {
    forall i, j :: 0 <= i < j < |s| ==> s[i] < s[j]
  }

  function NetworkFailureMessage(message: string, url: string): string {
    if Contains(message, "404") || Contains(message, "Not Found") then
      "uv " + UvVersion + " not available for this platform. URL: " + url
    else "Download failed: " + message
  }

  const InstallFailedPrefix := "uv installation failed: "
  const InstalledMessage := "uv " + UvVersion + " installed successfully"

  /** Everything from opening the archive on goes right: it opens, every
      member stays inside the extraction directory and is written out, the
      binary is found and copied, and `uv --version` exits 0. */
  predicate Unpacks(inst: Installation) {
    && inst.openError.None?
    && AllExtract(inst.members, inst.extractDir, inst.sep)
    && FindFile(inst.walk, BinaryName(inst.system), inst.sep).Some?
    && inst.copyError.None?
    && inst.check.Completed? && inst.check.returncode == 0
  }

  /** Every step of a fresh installation goes right: no cancellation, the
      download arrives, the archive and the uv directory are written, and
      unpacking succeeds. */
  predicate CleanInstall(inst: Installation) {
    && !inst.cancelledBeforeRequest && !inst.cancelledAfterRequest
    && inst.reply.Content?
    && inst.saveError.None? && inst.prepareError.None?
    && Unpacks(inst)
  }

  /** `download_uv` with every effect replaced by what it observed. */
  function DownloadUv(inst: Installation): (r: Outcome)
    requires inst.sep == '/' || inst.sep == '\\'
    ensures r.ok ==> r.message == "uv already installed" || r.message == InstalledMessage
    ensures r.ok && !inst.uvPresent ==>
              && r.message == InstalledMessage
              && (forall i :: 0 <= i < |inst.members| ==> Contained(inst.members[i].resolved, inst.extractDir, inst.sep))
              && FindFile(inst.walk, BinaryName(inst.system), inst.sep).Some?
    ensures r.progress <= Stages
    ensures |r.progress| == |Stages| <==> r.ok && !inst.uvPresent
    ensures !inst.uvPresent && inst.cancelledBeforeRequest ==> !r.ok && r.message == "Download cancelled"
    ensures inst.uvPresent ==> r == Outcome(true, "uv already installed", [])
    ensures r.ok <==> inst.uvPresent || CleanInstall(inst)
    ensures !inst.uvPresent && !inst.cancelledBeforeRequest && inst.reply.NetworkError? ==>
              && !r.ok
              && r.message == NetworkFailureMessage(inst.reply.message, DownloadUrl(inst.system, inst.machine))
    ensures !inst.uvPresent && !inst.cancelledBeforeRequest && inst.reply.Content? ==>
              && (inst.cancelledAfterRequest ==> r.message == "Download cancelled")
              && (!inst.cancelledAfterRequest && inst.saveError.Some? ==>
                    r.message == InstallFailedPrefix + inst.saveError.value)
              && (!inst.cancelledAfterRequest && inst.saveError.None? && inst.prepareError.Some? ==>
                    r.message == InstallFailedPrefix + inst.prepareError.value)
    ensures && !inst.uvPresent && !inst.cancelledBeforeRequest && inst.reply.Content?
            && !inst.cancelledAfterRequest && inst.saveError.None? && inst.prepareError.None?
            ==> r == Unpack(inst)
  {
    if inst.uvPresent then Outcome(true, "uv already installed", [])
    else if inst.cancelledBeforeRequest then Outcome(false, "Download cancelled", Stages[..1])
    else match inst.reply
      case NetworkError(m) =>
        Outcome(false, NetworkFailureMessage(m, DownloadUrl(inst.system, inst.machine)), Stages[..2])
      case Content(_) =>
        if inst.cancelledAfterRequest then Outcome(false, "Download cancelled", Stages[..2])
        else if inst.saveError.Some? then
          Outcome(false, InstallFailedPrefix + inst.saveError.value, Stages[..3])
        else if inst.prepareError.Some? then
          Outcome(false, InstallFailedPrefix + inst.prepareError.value, Stages[..4])
        else Unpack(inst)
  }

  /** The archive format `download_uv` opens: zip when the release asset
      for the platform is a `.zip`, tar otherwise. */
  function ArchiveKindOf(inst: Installation): ArchiveKind {
    if EndsWith(PlatformInfo(inst.system, inst.machine).1, ".zip") then Zip else Tar
  }

  /** The steps of `download_uv` from opening the archive on: extraction,
      locating and installing the binary, and verifying it. */
  function Unpack(inst: Installation): (r: Outcome)
    requires inst.sep == '/' || inst.sep == '\\'
    ensures r.ok ==> r.message == InstalledMessage
    ensures r.ok ==>
              && (forall i :: 0 <= i < |inst.members| ==> Contained(inst.members[i].resolved, inst.extractDir, inst.sep))
              && FindFile(inst.walk, BinaryName(inst.system), inst.sep).Some?
    ensures r.progress <= Stages && |r.progress| >= 4
    ensures |r.progress| == |Stages| <==> r.ok
    ensures r.ok <==> Unpacks(inst)
    ensures inst.openError.Some? ==> r.message == InstallFailedPrefix + inst.openError.value
    ensures inst.openError.None? && !AllExtract(inst.members, inst.extractDir, inst.sep) ==>
              StartsWith(r.message, InstallFailedPrefix)
    ensures forall k: nat :: inst.openError.None? && FirstEscape(inst.members, inst.extractDir, inst.sep, k)
                             ==> r.message == InstallFailedPrefix + TraversalMessage(ArchiveKindOf(inst), inst.members[k].name)
    ensures forall k: nat :: inst.openError.None? && FirstFailure(inst.members, inst.extractDir, inst.sep, k)
                             ==> r.message == InstallFailedPrefix + inst.members[k].failure.value
    ensures && inst.openError.None?
            && AllExtract(inst.members, inst.extractDir, inst.sep)
            ==> var name := BinaryName(inst.system);
                && (FindFile(inst.walk, name, inst.sep).None? ==> r.message == NotFoundMessage(name, inst.walk))
                && (FindFile(inst.walk, name, inst.sep).Some? && inst.copyError.Some? ==>
                      r.message == InstallFailedPrefix + inst.copyError.value)
                && (FindFile(inst.walk, name, inst.sep).Some? && inst.copyError.None? && !r.ok ==>
                      r.message == VerifyFailedPrefix + VerifyUv(true, UvPath(inst.uvDir, inst.system, inst.sep), inst.check).1)
  {
    if inst.openError.Some? then
      Outcome(false, InstallFailedPrefix + inst.openError.value, Stages[..4])
    else
      var kind := ArchiveKindOf(inst);
      var x := SafeExtract(inst.members, inst.extractDir, inst.sep, kind);
      ExtractionSucceedsIff(inst.members, inst.extractDir, inst.sep, kind);
      if x.error.Some? then
        ExtractionErrorNamesFirst(inst.members, inst.extractDir, inst.sep, kind);
        Outcome(false, InstallFailedPrefix + x.error.value, Stages[..4])
      else
        InstallBinary(inst)
  }

  /** The steps of `download_uv` after a safe extraction: locating the
      binary, copying it into place and running `uv --version`. */
  function InstallBinary(inst: Installation): (r: Outcome)
    requires inst.sep == '/' || inst.sep == '\\'
    ensures r.progress <= Stages && |r.progress| >= 4
    ensures |r.progress| == |Stages| <==> r.ok
    ensures r.ok ==> r.message == InstalledMessage
    ensures r.ok <==>
              && FindFile(inst.walk, BinaryName(inst.system), inst.sep).Some?
              && inst.copyError.None?
              && inst.check.Completed? && inst.check.returncode == 0
    ensures var name := BinaryName(inst.system);
            && (FindFile(inst.walk, name, inst.sep).None? ==> r.message == NotFoundMessage(name, inst.walk))
            && (FindFile(inst.walk, name, inst.sep).Some? && inst.copyError.Some? ==>
                  r.message == InstallFailedPrefix + inst.copyError.value)
            && (FindFile(inst.walk, name, inst.sep).Some? && inst.copyError.None? && !r.ok ==>
                  r.message == VerifyFailedPrefix + VerifyUv(true, UvPath(inst.uvDir, inst.system, inst.sep), inst.check).1)
  {
    var name := BinaryName(inst.system);
    if FindFile(inst.walk, name, inst.sep).None? then
      Outcome(false, NotFoundMessage(name, inst.walk), Stages[..4])
    else if inst.copyError.Some? then
      Outcome(false, InstallFailedPrefix + inst.copyError.value, Stages[..4])
    else
      var (verified, msg) := VerifyUv(true, UvPath(inst.uvDir, inst.system, inst.sep), inst.check);
      if verified then Outcome(true, InstalledMessage, Stages)
      else Outcome(false, VerifyFailedPrefix + msg, Stages[..5])
  }

  /** The reported percentages rise strictly and never pass 100, and 100
      is reported only by a run that installed uv. */
  lemma ProgressRises(inst: Installation)
    requires inst.sep == '/' || inst.sep == '\\'
    ensures StrictlyIncreasing(DownloadUv(inst).progress)
    ensures forall p :: p in DownloadUv(inst).progress ==> p <= 100
    ensures 100 in DownloadUv(inst).progress <==> DownloadUv(inst).ok && !inst.uvPresent
  {
    StagePrefix(DownloadUv(inst).progress);
  }

  /** Every prefix of the stage percentages rises strictly, stays within
      100, and reaches 100 only when it is all of them. */
  lemma StagePrefix(s: seq<nat>)
    requires s <= Stages
    ensures StrictlyIncreasing(s)
    ensures forall p :: p in s ==> p <= 100
    ensures 100 in s <==> |s| == |Stages|
  {
    assert s == Stages[..|s|];
    assert forall i :: 0 <= i < |Stages| - 1 ==> Stages[i] < 100;
    if |s| == |Stages| {
      assert s[5] == 100;
    }
    if 100 in s {
      var i :| 0 <= i < |s| && s[i] == 100;
      assert Stages[i] == 100;
    }
  }

  /** An archive with an escaping member never installs. */
  lemma EscapingMemberBlocksInstall(inst: Installation, k: nat)
    requires inst.sep == '/' || inst.sep == '\\'
    requires !inst.uvPresent && k < |inst.members|
    requires !Contained(inst.members[k].resolved, inst.extractDir, inst.sep)
    ensures !DownloadUv(inst).ok
  {
  }

  /** A network error whose text mentions 404 is reported as a missing
      release for the platform, naming the URL. */
  lemma MissingReleaseReported(inst: Installation)
    requires inst.sep == '/' || inst.sep == '\\'
    requires !inst.uvPresent && !inst.cancelledBeforeRequest
    requires inst.reply.NetworkError? && Contains(inst.reply.message, "404")
    ensures DownloadUv(inst) == Outcome(false,
              "uv " + UvVersion + " not available for this platform. URL: " + DownloadUrl(inst.system, inst.machine),
              Stages[..2])
  {
  }

  /** Any other network error is reported with its own text. */
  lemma OtherNetworkErrorReported(inst: Installation)
    requires inst.sep == '/' || inst.sep == '\\'
    requires !inst.uvPresent && !inst.cancelledBeforeRequest && inst.reply.NetworkError?
    requires !Contains(inst.reply.message, "404") && !Contains(inst.reply.message, "Not Found")
    ensures DownloadUv(inst) == Outcome(false, "Download failed: " + inst.reply.message, Stages[..2])
  {
  }
}
