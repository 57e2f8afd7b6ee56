/** The dependency manager (vantor/deps_manager.py): the sanitised
    subprocess environment, putting the venv on the import path, the
    missing-package report, the installer command and its failure text, the
    search for a Python under `apps` on Windows, and the ordered fallback
    chain that creates the venv. Processes, the file system and the import
    machinery are parameters. */
module DepsManager {
  import opened Wrappers
  import opened Text
  import UvManager

  type Run = UvManager.Run

  // ---------------------------------------------------------------------
  // Environment and import path
  // ---------------------------------------------------------------------

  /** Variables that would point a child interpreter at QGIS's Python. */
  const RemovedVars: set<string> :=
    {"PYTHONPATH", "PYTHONHOME", "VIRTUAL_ENV", "QGIS_PREFIX_PATH", "QGIS_PLUGINPATH"}

  /** `_get_clean_env`: the environment with the variables above removed and
      the child's standard streams forced to UTF-8. */
  function CleanEnv(env: map<string, string>): (r: map<string, string>)
    ensures forall v :: v in RemovedVars ==> v !in r
    ensures "PYTHONIOENCODING" in r && r["PYTHONIOENCODING"] == "utf-8"
    ensures forall k :: k in env && k !in RemovedVars && k != "PYTHONIOENCODING" ==> k in r && r[k] == env[k]
    ensures forall k :: k in r ==> k in env || k == "PYTHONIOENCODING"
  {
    (env - RemovedVars)["PYTHONIOENCODING" := "utf-8"]
  }

  /** Cleaning a cleaned environment changes nothing. */
  lemma CleanEnvIdempotent(env: map<string, string>)
    ensures CleanEnv(CleanEnv(env)) == CleanEnv(env)
  {
    var once := CleanEnv(env);
    var twice := CleanEnv(once);
    assert forall k :: k in twice <==> k in once;
  }

  /** `ensure_venv_packages_available` given whether the venv exists, its
      site-packages directory and the current `sys.path`: the answer and
      the new `sys.path`. */
  function EnsureVenvPackages(venvExists: bool, site: string, path: seq<string>): (r: (bool, seq<string>))
    ensures r.0 == venvExists
    ensures !venvExists ==> r.1 == path
    ensures venvExists ==> site in r.1
    ensures site in path ==> r.1 == path
    ensures |path| <= |r.1| <= |path| + 1 && r.1[|r.1| - |path|..] == path
  {
    if !venvExists then (false, path)
    else if site in path then (true, path)
    else (true, [site] + path)
  }

  /** Calling it twice is the same as calling it once. */
  lemma EnsureVenvPackagesIdempotent(venvExists: bool, site: string, path: seq<string>)
    ensures var once := EnsureVenvPackages(venvExists, site, path);
            EnsureVenvPackages(venvExists, site, once.1) == once
  {
  }

  // ---------------------------------------------------------------------
  // Required packages
  // ---------------------------------------------------------------------

  /** An `(import_name, pip_install_name)` pair. */
  datatype Requirement = Requirement(importName: string, pipName: string)

  const RequiredPackages := [Requirement("pystac", "pystac")]

  /** One entry of `check_dependencies`. */
  datatype DepStatus = DepStatus(name: string, pipName: string, installed: bool, version: Option<string>)

  /** `check_dependencies`: `probe(name)` is what importing `name` gives,
      None when it raises `ImportError`, otherwise the module's
      `__version__` or "installed" when it has none. */
  function CheckDependencies(reqs: seq<Requirement>, probe: string -> Option<string>): (r: seq<DepStatus>)
    ensures |r| == |reqs|
    ensures forall i :: 0 <= i < |reqs| ==>
              && r[i].name == reqs[i].importName
              && r[i].pipName == reqs[i].pipName
              && (r[i].installed <==> probe(reqs[i].importName).Some?)
              && r[i].version == probe(reqs[i].importName)
  {
    if |reqs| == 0 then []
    else
      var v := probe(reqs[0].importName);
      [DepStatus(reqs[0].importName, reqs[0].pipName, v.Some?, v)]
      + CheckDependencies(reqs[1..], probe)
  }

  /** `get_missing_packages` over one round of checks. */
  function MissingPackages(deps: seq<DepStatus>): (r: seq<string>)
    ensures |r| <= |deps|
    ensures forall i :: 0 <= i < |deps| && !deps[i].installed ==> deps[i].pipName in r
    ensures forall p :: p in r ==> exists i :: 0 <= i < |deps| && !deps[i].installed && deps[i].pipName == p
  {
    if |deps| == 0 then []
    else
      var rest := MissingPackages(deps[1..]);
      assert forall p :: p in rest ==> exists i :: 0 <= i < |deps| && !deps[i].installed && deps[i].pipName == p by {
        forall p | p in rest
          ensures exists i :: 0 <= i < |deps| && !deps[i].installed && deps[i].pipName == p
        {
          var j :| 0 <= j < |deps[1..]| && !deps[1..][j].installed && deps[1..][j].pipName == p;
          assert deps[j + 1] == deps[1..][j];
        }
      }
      if deps[0].installed then rest else [deps[0].pipName] + rest
  }

  /** `all_dependencies_met` over one round of checks. */
  predicate AllDependenciesMet(deps: seq<DepStatus>) {
    forall i :: 0 <= i < |deps| ==> deps[i].installed
  }

  /** All dependencies are met exactly when none is missing. */
  lemma AllMetIffNoneMissing(reqs: seq<Requirement>, probe: string -> Option<string>)
    ensures AllDependenciesMet(CheckDependencies(reqs, probe)) <==>
            MissingPackages(CheckDependencies(reqs, probe)) == []
  {
    var deps := CheckDependencies(reqs, probe);
    if !AllDependenciesMet(deps) {
      var i :| 0 <= i < |deps| && !deps[i].installed;
      assert deps[i].pipName in MissingPackages(deps);
    }
  }

  /** The missing list keeps `REQUIRED_PACKAGES` order. */
  lemma {:induction false} MissingKeepsOrder(deps: seq<DepStatus>)
    ensures MissingPackages(deps) == PipNamesOf(MissingOnly(deps))
  {
    if |deps| > 0 {
      MissingKeepsOrder(deps[1..]);
    }
  }

  function MissingOnly(deps: seq<DepStatus>): seq<DepStatus> {
    if |deps| == 0 then []
    else if deps[0].installed then MissingOnly(deps[1..])
    else [deps[0]] + MissingOnly(deps[1..])
  }

  function PipNamesOf(deps: seq<DepStatus>): seq<string> {
    if |deps| == 0 then [] else [deps[0].pipName] + PipNamesOf(deps[1..])
  }

  // ---------------------------------------------------------------------
  // Installing packages
  // ---------------------------------------------------------------------

  /** The installer invocation before the package names. Both forms target
      the venv's interpreter `python`. */
  function InstallerPrefix(useUv: bool, uvPath: string, python: string): (p: seq<string>)
    ensures useUv ==> |p| == 6 && p[0] == uvPath && p[3] == "--python" && p[4] == python
    ensures useUv ==> p[1..3] == ["pip", "install"] && p[5] == "--upgrade"
    ensures !useUv ==> |p| == 7 && p[0] == python && p[1..3] == ["-m", "pip"]
    ensures !useUv ==> p[3..] == ["install", "--upgrade", "--disable-pip-version-check", "--prefer-binary"]
  {
    if useUv then [uvPath, "pip", "install", "--python", python, "--upgrade"]
    else [python, "-m", "pip", "install", "--upgrade", "--disable-pip-version-check", "--prefer-binary"]
  }

  /** The `install_packages` command: the installer prefix followed by the
      packages, in the order given. */
  function InstallCommand(useUv: bool, uvPath: string, python: string, packages: seq<string>): (cmd: seq<string>)
    ensures |cmd| == |InstallerPrefix(useUv, uvPath, python)| + |packages|
    ensures cmd[..|InstallerPrefix(useUv, uvPath, python)|] == InstallerPrefix(useUv, uvPath, python)
    ensures cmd[|InstallerPrefix(useUv, uvPath, python)|..] == packages
    ensures python in cmd
  {
    var p := InstallerPrefix(useUv, uvPath, python);
    assert python == p[if useUv then 4 else 0];
    p + packages
  }

  /** The output a failed install reports: stderr, else stdout, else
      "Unknown error". */
  function InstallErrorSource(stdout: string, stderr: string): (r: string)
    ensures stderr != "" ==> r == stderr
    ensures stderr == "" && stdout != "" ==> r == stdout
    ensures stderr == "" && stdout == "" ==> r == "Unknown error"
    ensures r != ""
  {
    if stderr != "" then stderr else if stdout != "" then stdout else "Unknown error"
  }

  const MaxErrorLength := 1000

  /** The tail of long output, marked with "...". */
  function ShortenError(text: string): (r: string)
    ensures |r| <= MaxErrorLength + 3
    ensures |text| <= MaxErrorLength ==> r == text
    ensures |text| > MaxErrorLength ==>
              |r| == MaxErrorLength + 3 && StartsWith(r, "...") && EndsWith(text, r[3..])
  {
    if |text| > MaxErrorLength then
      var r := "..." + text[|text| - MaxErrorLength..];
      assert r[3..] == text[|text| - MaxErrorLength..];
      assert r[..3] == "...";
      r
    else text
  }

  /** `install_packages` after the run: the result and its message. */
  function InstallResult(useUv: bool, returncode: int, stdout: string, stderr: string): (r: (bool, string))
    ensures r.0 <==> returncode == 0
    ensures r.0 ==> r.1 == "Packages installed successfully."
    ensures !r.0 ==>
              var head := (if useUv then "uv pip" else "pip") + " install failed:\n";
              && r.1 == head + ShortenError(InstallErrorSource(stdout, stderr))
              && StartsWith(r.1, head)
              && |r.1| <= |head| + MaxErrorLength + 3
  {
    if returncode != 0 then
      var head := (if useUv then "uv pip" else "pip") + " install failed:\n";
      var body := ShortenError(InstallErrorSource(stdout, stderr));
      assert (head + body)[..|head|] == head;
      (false, head + body)
    else (true, "Packages installed successfully.")
  }

  /** The reported text is the preferred stream, whole when short:
      stderr when there is any, stdout otherwise, and "Unknown error" when
      both are empty. */
  lemma InstallFailureQuotesOutput(useUv: bool, returncode: int, stdout: string, stderr: string)
    requires returncode != 0 && |stderr| <= MaxErrorLength && |stdout| <= MaxErrorLength
    ensures var head := (if useUv then "uv pip" else "pip") + " install failed:\n";
            var r := InstallResult(useUv, returncode, stdout, stderr).1;
            && (stderr != "" ==> r == head + stderr)
            && (stderr == "" && stdout != "" ==> r == head + stdout)
            && (stderr == "" && stdout == "" ==> r == head + "Unknown error")
  {
  }

  /** A long failure output is reported by its last 1000 characters. */
  lemma InstallFailureKeepsTail(useUv: bool, returncode: int, stdout: string, stderr: string)
    requires returncode != 0 && |stderr| > MaxErrorLength
    ensures var head := (if useUv then "uv pip" else "pip") + " install failed:\n";
            InstallResult(useUv, returncode, stdout, stderr).1
              == head + "..." + stderr[|stderr| - MaxErrorLength..]
  {
  }

  // ---------------------------------------------------------------------
  // Windows interpreter search, strategy 4
  // ---------------------------------------------------------------------

  /** An entry of the `apps` directory and whether it holds `python.exe`. */
  datatype AppsEntry = AppsEntry(name: string, hasPythonExe: bool)

  /** The part after "python" of an entry whose lower-cased name starts with
      it. */
  function VersionSuffix(e: AppsEntry): string
    requires StartsWith(Lower(e.name), "python")
  {
    Lower(e.name)[6..]
  }

  /** Entries the search accepts: "python..." (any case) with at least one
      digit after the prefix and a `python.exe` inside. */
  predicate Qualifies(e: AppsEntry) {
    && StartsWith(Lower(e.name), "python")
    && |DigitsOf(VersionSuffix(e))| > 0
    && e.hasPythonExe
  }

  /** The number formed by the digits after the prefix. */
  function VersionNumber(e: AppsEntry): nat
    requires StartsWith(Lower(e.name), "python")
  {
    DigitsValue(DigitsOf(VersionSuffix(e)))
  }

  /** Strategy 4 of `_find_python_executable`: the index of the entry whose
      `python.exe` is chosen. Among qualifying entries it has the largest
      version number, and it is the first entry with that number. */
  method BestPythonEntry(entries: seq<AppsEntry>) returns (best: Option<nat>)
    ensures best.None? <==> forall i :: 0 <= i < |entries| ==> !Qualifies(entries[i])
    ensures best.Some? ==>
              && best.value < |entries|
              && Qualifies(entries[best.value])
              && (forall i :: 0 <= i < |entries| && Qualifies(entries[i]) ==>
                    VersionNumber(entries[i]) <= VersionNumber(entries[best.value]))
              && (forall i :: 0 <= i < best.value && Qualifies(entries[i]) ==>
                    VersionNumber(entries[i]) < VersionNumber(entries[best.value]))
  {
    best := None;
    var bestVersion: int := -1;
    var n := 0;
    while n < |entries|
      invariant 0 <= n <= |entries|
      invariant best.None? <==> forall i :: 0 <= i < n ==> !Qualifies(entries[i])
      invariant best.None? ==> bestVersion == -1
      invariant best.Some? ==>
                  && best.value < n
                  && Qualifies(entries[best.value])
                  && bestVersion == VersionNumber(entries[best.value])
                  && (forall i :: 0 <= i < n && Qualifies(entries[i]) ==> VersionNumber(entries[i]) <= bestVersion)
                  && (forall i :: 0 <= i < best.value && Qualifies(entries[i]) ==> VersionNumber(entries[i]) < bestVersion)
    {
      var e := entries[n];
      if Qualifies(e) && VersionNumber(e) > bestVersion {
        best := Some(n);
        bestVersion := VersionNumber(e);
      }
      n := n + 1;
    }
  }

  /** The path strategy 4 returns for the chosen entry. */
  function CandidatePath(appsDir: string, e: AppsEntry, sep: char): (r: string)
    requires sep !in "python.exe"
    ensures Basename(r, sep) == "python.exe"
  {
    JoinedBasename(PathJoin(appsDir, e.name, sep), "python.exe", sep);
    PathJoin(PathJoin(appsDir, e.name, sep), "python.exe", sep)
  }

  // ---------------------------------------------------------------------
  // Creating the venv
  // ---------------------------------------------------------------------

  /** The two runs of `_verify_pip_and_return`: `ensurepip --upgrade`,
      whose exit status is ignored, and `pip --version`. */
  datatype PipCheck = PipCheck(ensurepip: Run, version: Run)

  /** The exceptions that can leave `create_venv`. */
  datatype Raised = Timeout | OsError(message: string) | Runtime(message: string)

  /** How `create_venv` ended: with the venv's interpreter, with an
      exception raised by one of its steps, or with the final
      `RuntimeError` listing the given details. */
  datatype VenvResult = Created(python: string) | Aborted(error: Raised) | Exhausted(details: seq<string>)

  /** What `create_venv` observes. `uvVenv`, `venv`, `builderOk` and
      `bareVenv` are the four strategies' results; each `pythonAfter…` says
      whether the interpreter exists afterwards (for the last strategy,
      after the copy fallback); `pipN` is the pip check that follows
      strategy N. The identity fields feed the error details. */
  datatype VenvWorld = VenvWorld(
    uvExists: bool,
    uvVenv: Run,
    pythonAfterUv: bool,
    venv: Run,
    pythonAfterVenv: bool,
    pip1: PipCheck,
    builderOk: bool,
    pip2: PipCheck,
    bareVenv: Run,
    pythonAfterBare: bool,
    pip3: PipCheck,
    pythonPath: string,
    sysExecutable: string,
    pythonFound: string,
    venvDir: string,
    platform: string)

  /** Strategy attempts and clean-ups, in the order they happen. */
  datatype Event = Attempt(strategy: nat) | Cleanup

  datatype VenvOutcome = VenvOutcome(result: VenvResult, trace: seq<Event>)

  /** An exception a run raised, as `create_venv` propagates it. */
  function RunException(run: Run): Raised
    requires !run.Completed?
  {
    if run.TimedOut? then Timeout else OsError(run.error)
  }

  /** `_verify_pip_and_return`. */
  function VerifyPip(python: string, check: PipCheck): (r: VenvResult)
    ensures r.Created? ==> r.python == python
    ensures r.Created? <==> !check.ensurepip.TimedOut? && !check.ensurepip.Raised?
                            && check.version.Completed? && check.version.returncode == 0
    ensures !r.Exhausted?
  {
    if !check.ensurepip.Completed? then Aborted(RunException(check.ensurepip))
    else match check.version
      case Completed(rc, out, err) =>
        if rc != 0 then
          Aborted(Runtime("pip is not available in the virtual environment.\nPython path: "
                          + python + "\nError: " + (if err != "" then err else out)))
        else Created(python)
      case TimedOut => Aborted(Timeout)
      case Raised(e) => Aborted(OsError(e))
  }

  /** The output strategy 1 leaves behind for the error details. */
  function SubprocessError(run: Run): string {
    match run
    case Completed(rc, out, err) => if rc != 0 then (if err != "" then err else out) else ""
    case _ => ""
  }

  /** The details of the final error. */
  function FailureDetails(w: VenvWorld, subprocessError: string): seq<string> {
    ["sys.executable: " + w.sysExecutable, "Python found: " + w.pythonFound,
     "Target venv: " + w.venvDir, "Expected python: " + w.pythonPath,
     "Platform: " + w.platform]
    + (if subprocessError != "" then ["Subprocess error: " + subprocessError] else [])
  }

  /** Every attempt and clean-up of a run that tries all strategies. */
  function Chain(uvExists: bool): seq<Event> {
    (if uvExists then [Attempt(0), Cleanup] else [])
    + [Attempt(1), Cleanup, Attempt(2), Cleanup, Attempt(3)]
  }

  /** `create_venv`: a run stops at some attempt of the full chain, and
      reaches its end exactly when it ends with the final error. */
  function CreateVenv(w: VenvWorld): (r: VenvOutcome)
    ensures r.result.Created? ==> r.result.python == w.pythonPath
    ensures |r.trace| % 2 == 1 && |r.trace| <= |Chain(w.uvExists)|
    ensures r.trace == Chain(w.uvExists)[..|r.trace|]
    ensures r.result.Exhausted? ==> r.trace == Chain(w.uvExists)
    ensures r.result.Exhausted? ==> r.result.details == FailureDetails(w, SubprocessError(w.venv))
    ensures Yields(w, 0) ==> r == VenvOutcome(Created(w.pythonPath), [Attempt(0)])
    ensures w.uvExists && !w.uvVenv.Completed? ==>
              r == VenvOutcome(Aborted(RunException(w.uvVenv)), [Attempt(0)])
    ensures PassesOn(w, 0) ==> r.result == FromVenvModule(w).result
    ensures PassesOn(w, 0) ==>
              r.trace == (if w.uvExists then [Attempt(0), Cleanup] else []) + FromVenvModule(w).trace
  {
    if w.uvExists then
      match w.uvVenv
      case Completed(rc, _, _) =>
        if rc == 0 && w.pythonAfterUv then VenvOutcome(Created(w.pythonPath), [Attempt(0)])
        else
          var rest := FromVenvModule(w);
          VenvOutcome(rest.result, [Attempt(0), Cleanup] + rest.trace)
      case _ => VenvOutcome(Aborted(RunException(w.uvVenv)), [Attempt(0)])
    else FromVenvModule(w)
  }

  /** Strategies 1 to 3. */
  function FromVenvModule(w: VenvWorld): (r: VenvOutcome)
    ensures r.result.Created? ==> r.result.python == w.pythonPath
    ensures |r.trace| % 2 == 1 && |r.trace| <= 5
    ensures r.trace == Chain(false)[..|r.trace|]
    ensures r.result.Exhausted? ==> r.trace == Chain(false)
    ensures r.result.Exhausted? ==> r.result.details == FailureDetails(w, SubprocessError(w.venv))
    ensures !w.venv.Completed? ==> r == VenvOutcome(Aborted(RunException(w.venv)), [Attempt(1)])
    ensures Yields(w, 1) ==> r == VenvOutcome(VerifyPip(w.pythonPath, w.pip1), [Attempt(1)])
    ensures PassesOn(w, 1) && Yields(w, 2) ==>
              r == VenvOutcome(VerifyPip(w.pythonPath, w.pip2), Chain(false)[..3])
    ensures PassesOn(w, 1) && PassesOn(w, 2) ==>
              r == VenvOutcome(WithoutPip(w, SubprocessError(w.venv)), Chain(false))
  {
    var all := Chain(false);
    match w.venv
    case Completed(rc, _, _) =>
      if rc == 0 && w.pythonAfterVenv then VenvOutcome(VerifyPip(w.pythonPath, w.pip1), all[..1])
      else if w.builderOk then VenvOutcome(VerifyPip(w.pythonPath, w.pip2), all[..3])
      else VenvOutcome(WithoutPip(w, SubprocessError(w.venv)), all)
    case _ => VenvOutcome(Aborted(RunException(w.venv)), all[..1])
  }

  /** Strategy 3 and the final error: OS errors and subprocess errors
      (timeouts included) from its steps fall through to the final error;
      a `RuntimeError` from the pip check propagates. */
  function WithoutPip(w: VenvWorld, subprocessError: string): (r: VenvResult)
    ensures r.Created? ==> r.python == w.pythonPath
    ensures r.Aborted? ==> r.error.Runtime?
    ensures r.Exhausted? ==> r.details == FailureDetails(w, subprocessError)
    ensures !Yields(w, 3) ==> r == Exhausted(FailureDetails(w, subprocessError))
    ensures Yields(w, 3) && !PipCheckSwallowed(w.pythonPath, w.pip3) ==> r == VerifyPip(w.pythonPath, w.pip3)
    ensures Yields(w, 3) && PipCheckSwallowed(w.pythonPath, w.pip3) ==>
              r == Exhausted(FailureDetails(w, subprocessError))
  {
    var fallThrough := Exhausted(FailureDetails(w, subprocessError));
    if w.bareVenv.Completed? && w.bareVenv.returncode == 0 && w.pythonAfterBare then
      var v := VerifyPip(w.pythonPath, w.pip3);
      if v.Aborted? && !v.error.Runtime? then fallThrough else v
    else fallThrough
  }

  /** Strategy `k`'s own step left the interpreter at `python_path`:
      uv exited 0 (0), `-m venv` exited 0 (1), the EnvBuilder succeeded
      (2), or `--without-pip` exited 0 (3); for 0, 1 and 3 the interpreter
      file must exist afterwards. */
  predicate Yields(w: VenvWorld, k: nat) {
    match k
    case 0 => w.uvExists && w.uvVenv.Completed? && w.uvVenv.returncode == 0 && w.pythonAfterUv
    case 1 => w.venv.Completed? && w.venv.returncode == 0 && w.pythonAfterVenv
    case 2 => w.builderOk
    case 3 => w.bareVenv.Completed? && w.bareVenv.returncode == 0 && w.pythonAfterBare
    case _ => false
  }

  /** The chain moves on past strategy `k`: the strategy was skipped or
      failed without an exception escaping `create_venv`. */
  predicate PassesOn(w: VenvWorld, k: nat) {
    match k
    case 0 => !w.uvExists || (w.uvVenv.Completed? && !Yields(w, 0))
    case 1 => w.venv.Completed? && !Yields(w, 1)
    case 2 => !w.builderOk
    case 3 => !Yields(w, 3)
    case _ => true
  }

  /** Strategy `k` is the first that yields the interpreter. */
  predicate FirstToYield(w: VenvWorld, k: nat) {
    Yields(w, k) && forall j :: 0 <= j < k ==> PassesOn(w, j)
  }

  /** The pip check that follows strategy `k`. */
  function PipAfter(w: VenvWorld, k: nat): PipCheck
    requires 1 <= k <= 3
  {
    if k == 1 then w.pip1 else if k == 2 then w.pip2 else w.pip3
  }

  /** Strategy 3's pip check raised an exception its `except (OSError,
      subprocess.SubprocessError)` catches. */
  predicate PipCheckSwallowed(python: string, check: PipCheck) {
    var v := VerifyPip(python, check);
    v.Aborted? && !v.error.Runtime?
  }

  /** The length of the trace that ends on strategy `k`'s attempt. */
  function TraceTo(uvExists: bool, k: nat): nat
    requires uvExists || k >= 1
  {
    if uvExists then 2 * k + 1 else 2 * k - 1
  }

  /** When strategy 1 or 2 is the first to yield the interpreter,
      `create_venv` returns what its pip check gives, and the trace stops
      at that attempt. */
  lemma FirstYieldDecides(w: VenvWorld, k: nat)
    requires k == 1 || k == 2
    requires FirstToYield(w, k)
    ensures CreateVenv(w).result == VerifyPip(w.pythonPath, PipAfter(w, k))
    ensures CreateVenv(w).trace == Chain(w.uvExists)[..TraceTo(w.uvExists, k)]
  {
    assert PassesOn(w, 0);
    if k == 2 {
      assert PassesOn(w, 1);
    }
    if w.uvExists {
      assert Chain(w.uvExists)[..TraceTo(w.uvExists, k)] == [Attempt(0), Cleanup] + Chain(false)[..2 * k - 1];
    }
  }

  /** When strategy 3 is the first to yield the interpreter, its pip check
      decides, except that an OS error or subprocess error from that check
      falls through to the final error. */
  lemma LastStrategyDecides(w: VenvWorld)
    requires FirstToYield(w, 3)
    ensures CreateVenv(w).trace == Chain(w.uvExists)
    ensures !PipCheckSwallowed(w.pythonPath, w.pip3) ==>
              CreateVenv(w).result == VerifyPip(w.pythonPath, w.pip3)
    ensures PipCheckSwallowed(w.pythonPath, w.pip3) ==>
              CreateVenv(w).result == Exhausted(FailureDetails(w, SubprocessError(w.venv)))
  {
    assert PassesOn(w, 0) && PassesOn(w, 1) && PassesOn(w, 2);
  }

  /** When every strategy fails, `create_venv` raises the final error after
      trying all of them. */
  lemma AllFailRaises(w: VenvWorld)
    requires forall k :: 0 <= k <= 3 ==> PassesOn(w, k)
    ensures CreateVenv(w).result == Exhausted(FailureDetails(w, SubprocessError(w.venv)))
    ensures CreateVenv(w).trace == Chain(w.uvExists)
  {
    assert PassesOn(w, 0) && PassesOn(w, 1) && PassesOn(w, 2) && PassesOn(w, 3);
  }

  /** A created venv comes from the strategy of the trace's last attempt:
      that strategy was the first to yield the interpreter, and its pip
      check (for strategies 1 to 3) passed. */
  lemma CreatedByLastAttempt(w: VenvWorld)
    requires CreateVenv(w).result.Created?
    ensures var t := CreateVenv(w).trace;
            && |t| > 0 && t[|t| - 1].Attempt?
            && FirstToYield(w, t[|t| - 1].strategy)
            && (1 <= t[|t| - 1].strategy <= 3 ==>
                  VerifyPip(w.pythonPath, PipAfter(w, t[|t| - 1].strategy)).Created?)
  {
    var t := CreateVenv(w).trace;
    if w.uvExists && Yields(w, 0) {
      assert t == [Attempt(0)];
    } else {
      assert PassesOn(w, 0) by {
        if w.uvExists && !w.uvVenv.Completed? {
          assert false;
        }
      }
      var rest := FromVenvModule(w);
      assert t[|t| - 1] == rest.trace[|rest.trace| - 1];
      CreatedByLaterAttempt(w);
    }
  }

  /** Strategies 1 to 3: a created venv comes from the last attempt, the
      first of them to yield, and its pip check passed. */
  lemma CreatedByLaterAttempt(w: VenvWorld)
    requires PassesOn(w, 0) && FromVenvModule(w).result.Created?
    ensures var t := FromVenvModule(w).trace;
            && |t| > 0 && t[|t| - 1].Attempt? && 1 <= t[|t| - 1].strategy <= 3
            && FirstToYield(w, t[|t| - 1].strategy)
            && VerifyPip(w.pythonPath, PipAfter(w, t[|t| - 1].strategy)).Created?
  {
    var rest := FromVenvModule(w);
    ChainPrefix(false, |rest.trace|);
    if Yields(w, 1) {
      assert rest.trace == [Attempt(1)];
    } else if Yields(w, 2) {
      assert PassesOn(w, 1);
      assert rest.trace[|rest.trace| - 1] == Attempt(2);
    } else {
      assert PassesOn(w, 1) && PassesOn(w, 2);
      assert rest.trace[|rest.trace| - 1] == Attempt(3);
    }
  }

  /** Strategies are attempted in increasing order. */
  predicate AttemptsAscend(trace: seq<Event>) {
    forall i, j :: 0 <= i < j < |trace| && trace[i].Attempt? && trace[j].Attempt? ==>
      trace[i].strategy < trace[j].strategy
  }

  /** Every clean-up directly follows a failed attempt of strategy 0, 1
      or 2, and every attempt that is not the last is followed by one. */
  predicate CleanupsFollowEarlyFailures(trace: seq<Event>) {
    && (forall i :: 0 <= i < |trace| && trace[i].Cleanup? ==>
          i > 0 && trace[i - 1].Attempt? && trace[i - 1].strategy <= 2)
    && (forall i :: 0 <= i < |trace| - 1 && trace[i].Attempt? ==> trace[i + 1].Cleanup?)
  }

  /** The fallback order: strategies are attempted in increasing order,
      strategy 0 only when uv exists, each failed attempt of strategies 0
      to 2 is cleaned up, and the run ends on the attempt that decided it. */
  lemma FallbackOrder(w: VenvWorld)
    ensures var t := CreateVenv(w).trace;
            && AttemptsAscend(t)
            && CleanupsFollowEarlyFailures(t)
            && |t| > 0 && t[|t| - 1].Attempt?
            && (Attempt(0) in t <==> w.uvExists)
  {
    var t := CreateVenv(w).trace;
    ChainPrefix(w.uvExists, |t|);
  }

  /** Every odd-length prefix of the chain has the fallback shape. */
  lemma ChainPrefix(uvExists: bool, n: nat)
    requires n % 2 == 1 && n <= |Chain(uvExists)|
    ensures var t := Chain(uvExists)[..n];
            && AttemptsAscend(t)
            && CleanupsFollowEarlyFailures(t)
            && t[n - 1].Attempt?
            && (Attempt(0) in t <==> uvExists)
  {
    var c := Chain(uvExists);
    var t := c[..n];
    ChainShape(uvExists);
    assert forall i :: 0 <= i < n ==> t[i] == c[i];
    assert AttemptsAscend(t) by {
      forall i, j | 0 <= i < j < n && t[i].Attempt? && t[j].Attempt?
        ensures t[i].strategy < t[j].strategy
      {
        assert i % 2 == 0 && j % 2 == 0;
      }
    }
    assert CleanupsFollowEarlyFailures(t) by {
      forall i | 0 <= i < n && t[i].Cleanup?
        ensures i > 0 && t[i - 1].Attempt? && t[i - 1].strategy <= 2
      {
        assert i % 2 == 1 && (i - 1) % 2 == 0;
      }
      forall i | 0 <= i < n - 1 && t[i].Attempt?
        ensures t[i + 1].Cleanup?
      {
        assert (i + 1) % 2 == 1;
      }
    }
    if uvExists {
      assert t[0] == Attempt(0);
    } else {
      assert forall i :: 0 <= i < n && t[i].Attempt? ==> t[i].strategy >= 1;
    }
  }

  /** The chain alternates attempts and clean-ups, attempt `i / 2` (or
      `i / 2 + 1` without uv) sitting at every even position `i`. */
  lemma ChainShape(uvExists: bool)
    ensures var c := Chain(uvExists);
            && |c| == (if uvExists then 7 else 5)
            && (forall i :: 0 <= i < |c| ==> (c[i].Attempt? <==> i % 2 == 0))
            && (forall i :: 0 <= i < |c| && c[i].Attempt? ==>
                  c[i].strategy == (if uvExists then i / 2 else i / 2 + 1))
  {
  }

  /** The final error mentions the subprocess output exactly when strategy 1
      exited non-zero with some output. */
  lemma SubprocessErrorReported(w: VenvWorld)
    requires CreateVenv(w).result.Exhausted?
    ensures var d := CreateVenv(w).result.details;
            && |d| >= 5
            && (|d| == 6 <==> w.venv.Completed? && w.venv.returncode != 0
                              && (w.venv.stderr != "" || w.venv.stdout != ""))
            && (|d| == 6 ==> d[5] == "Subprocess error: " + SubprocessError(w.venv))
  {
    if w.uvExists {
      assert CreateVenv(w).result == FromVenvModule(w).result;
    }
  }
}
