# A verified model of the Vantor QGIS plugin's data logic

The Vantor plugin browses the Vantor open-data STAC catalog from inside QGIS. It lists event collections, fetches their items, and filters them by bounding box and by pre-/post-event phase. It shows the items in a table, adds the checked items' Cloud-Optimized GeoTIFFs as raster layers, and downloads them to disk. It also bootstraps its own dependencies: it downloads the `uv` installer, creates a virtual environment, and installs packages into it. A separate script packages the plugin as a zip archive.

This project models the pure, sequential logic inside that plugin, in Dafny, and proves properties of it. Network replies, subprocess results, the file system and the cancellation flag are parameters of the model. Nothing here performs I/O.

| module | file | models |
|---|---|---|
| `Wrappers` | wrappers.dfy | `Option` and `Result` |
| `JsonValue` | json.dfy | decoded JSON values, Python truthiness, `dict.get` |
| `Text` | text.dfy | the Python string operations the plugin uses |
| `Seqs` | seqs.dfy | order-preserving selection (list comprehensions with a condition) |
| `Stac` | stac.dfy | vantor/stac_client.py |
| `Packaging` | packaging.dfy | package_plugin.py |
| `UvManager` | uv_manager.dfy | vantor/uv_manager.py |
| `DepsManager` | deps_manager.dfy | vantor/deps_manager.py |
| `Workers` | workers.dfy | vantor/workers.py |
| `MainDock` | main_dock.dfy | the data logic of vantor/dialogs/main_dock.py |

How the model handles each kind of outside input:

- **Catalog documents.** `fetch_catalog` and `fetch_items` take their documents already decoded. A failed fetch is the text of the exception it raised.
- **Relative links.** Relative hrefs go through an `urljoin` function parameter.
- **The download loop.** It is driven by the responses of the tasks' URLs. It also takes `cancelAt`: the index of the first checkpoint read that sees the cancellation flag. The flag is never cleared, so every later read sees it too.
- **The venv fallback chain.** It is driven by the results of the four strategies' subprocess runs.
- **`download_uv`.** It is driven by what it observes inside its `try` block, in the order it observes it: the reply, the cancellation answers, each file step's exception, each archive member's resolved path and extraction exception, the unpacked tree and the `uv --version` run. Creating the temporary file before the `try` is taken to succeed.
- **The packaging walk.** It is stated for any pair of rules (which directory names are pruned, which file names are skipped); the script's own rules are `Packaging.PluginRules`.

## Model

| member | source | states |
|---|---|---|
| Stac.ResolveHref | vantor/stac_client.py:41-43 | `http://` and `https://` hrefs are returned unchanged |
| Stac.FallbackNameIsSegment | vantor/stac_client.py:63 | the fallback name holds no `/`; it is the second-to-last piece of the href without its trailing slashes, and joining the pieces with `/` rebuilds that string |
| Stac.CatalogEntries | vantor/stac_client.py:57-71 | the walk fails exactly when some child link has no href or no second-to-last segment; on success it yields one entry per `rel == "child"` link, in link order, with `id == title`; the title is the link's title, or the fallback name when the link has none |
| Stac.FetchCatalog | vantor/stac_client.py:54-73 | a failed root fetch is reported with its error; otherwise the result is the child-link walk of the root's links |
| Stac.TitledLinkStillNeedsSegment | vantor/stac_client.py:59-64 | a child link with a title and href `https://` still aborts the fetch, because the fallback name is computed first |
| Stac.FetchedItems | vantor/stac_client.py:107-117 | only `rel == "item"` links are followed; an item link without an href aborts the walk, and nothing else does; a successful walk is the list of fetched documents of the item links, in link order, with every failed fetch left out |
| Stac.FetchedItemsKeepSuccesses | vantor/stac_client.py:107-117 | an item is in a successful walk's result iff some item link with an href fetched it |
| Stac.Dedup | vantor/stac_client.py:105-115 | the kept items are a subsequence of the input with pairwise distinct ids, none of them already seen |
| Stac.DedupKeepsFirst | vantor/stac_client.py:112-115 | the item kept for an id is the first item carrying that id |
| Stac.DedupCoversKeys | vantor/stac_client.py:112-115 | every id not seen before the loop is represented in the result |
| Stac.FetchItems | vantor/stac_client.py:103-119 | a failed collection fetch is reported with its error; after a fetched collection it succeeds iff walking the item links succeeds, and otherwise fails with the walk's error; on success the ids are pairwise distinct and the items are a subsequence of the fetched items, so they stay in link order |
| Stac.FetchItemsFirstOccurrence | vantor/stac_client.py:103-119 | every fetched id appears in the result, and the item kept for it is the first fetched with it |
| Stac.FilterByBbox | vantor/stac_client.py:136-150 | the result is an order-preserving subsequence whose length is the number of kept items, so every kept item appears as often as in the input; an item is kept iff it has no bbox, a bbox shorter than 4, or `w <= east && e >= west && s <= north && n >= south` |
| Stac.BboxTestIsClosedIntersection | vantor/stac_client.py:141-145 | for rectangles that do not cross the antimeridian, the four comparisons hold iff the two closed rectangles share a point |
| Stac.TouchingEdgeKept | vantor/stac_client.py:144 | an item whose east edge lies on the query's west edge is kept |
| Stac.WrappedQueryDropsItem | vantor/stac_client.py:144 | a query with west > east (crossing the antimeridian) drops an item lying inside its wrapped part |
| Stac.BboxFilterIdempotent | vantor/stac_client.py:136-150 | filtering twice by the same box equals filtering once |
| Stac.FilterByPhase | vantor/stac_client.py:165-175 | `"all"` returns the input unchanged; any other selector raises iff some item's phase is present but not a string, and the error names the type of the first such phase; otherwise it keeps an order-preserving subsequence, as long as the number of matching items, of exactly the items whose phase, lower-cased with every `-event` removed, equals the selector normalised the same way, a missing phase counting as `""` |
| Stac.PhaseFilterIdempotent | vantor/stac_client.py:165-175 | a filter that did not raise gives the same list when applied again to its own result |
| Stac.SameKeySameSelection | vantor/stac_client.py:169-174 | two selectors other than `"all"` that normalise to the same key give the same outcome: the same items in the same order, or the same error |
| Stac.PreEventSelectsLikePre | vantor/stac_client.py:168-174 | `"pre-event"` and `"PRE"` select the same items |
| Stac.MissingPhaseDropped | vantor/stac_client.py:173 | an item without a phase counts as phase `""`, so every selector whose normal form is non-empty drops it |
| Stac.NullPhaseRaises | vantor/stac_client.py:173 | a selector other than `"all"` raises on a list holding an item with a null phase, whatever else the list holds |
| Stac.CogUrl | vantor/stac_client.py:187-196 | a present, non-empty `visual` asset gives its href (None without one); otherwise the scan stops at the first asset whose `type` either names TIFF or cannot be searched: the first gives its href, the second raises `argument of type … is not iterable`; when no asset stops the scan, the result is None |
| Stac.GeotiffAssetIsTiff | vantor/stac_client.py:194 | an asset typed as GeoTIFF passes the TIFF test, so the `geotiff` test adds nothing to the `tiff` test |
| Stac.NullTypeBeforeTiffRaises | vantor/stac_client.py:192-195 | without a `visual` asset, an asset with a null `type` met before a TIFF asset makes the scan raise `argument of type 'NoneType' is not iterable`, so the TIFF asset behind it is never reached |
| Stac.TextTypesNeverRaise | vantor/stac_client.py:192-195 | when every asset's `type` is absent or a string, the scan does not raise |
| Stac.ThumbnailUrl | vantor/stac_client.py:208-212 | a present, non-empty `thumbnail` asset gives its href, or None when it has none; a missing or empty one gives None; any URL returned is the href of a `thumbnail` asset |
| Stac.ItemProperties | vantor/stac_client.py:224-234 | id is the item's id, or `"Unknown"`; sensor prefers `vehicle_name` over `constellation`, cloud cover prefers `eo:cloud_cover` over `cloud_cover`, and pan GSD prefers `pan_gsd` over `panchromatic_gsd`; a present key wins even when null, and its value is copied as is; a field with neither key is `""` |
| Stac.DisplayedValuesComeFromItem | vantor/stac_client.py:227-233 | every displayed property other than the id is a value stored in the item's properties or `""`, so nothing is invented |
| Packaging.PatternMeanings | package_plugin.py:24-34 | each of the nine exclusion regexes, read as a prefix/suffix condition on the name |
| Packaging.AnyMatchesAt | package_plugin.py:59-62 | the pattern loop matches iff some pattern in the table matches |
| Packaging.ExcludeByIndex | package_plugin.py:57-62 | `should_exclude_file` holds iff one of the nine patterns matches |
| Packaging.ShouldExcludeFileIff | package_plugin.py:57-62 | a file is excluded iff it is `ui_*.py` (at least 6 characters), ends in `_rc.py`, `.pyc`, `.pyo`, `.bak`, `~` or `.orig`, or is `.*.swp` (at least 5 characters) |
| Packaging.ShouldExcludeDirIff | package_plugin.py:65-73 | a directory is pruned iff it starts with `.`, is one of the six undotted names in `EXCLUDE_DIRS`, or ends in `.egg-info` |
| Packaging.AfterFirstEquals | package_plugin.py:83 | `split("=", 1)[1]` is the suffix that follows the first `=` |
| Packaging.VersionLine | package_plugin.py:81-82 | the index found is the first line starting with `version=`; None means there is no such line |
| Packaging.VersionAfterKey | package_plugin.py:82-83 | on a `version=` line the split keeps everything after the key, further `=` included |
| Packaging.VersionFromMetadata | package_plugin.py:76-84 | `"unknown"` without the file or without a `version=` line; otherwise the stripped text after `version=` of the first such line |
| Packaging.ZipName | package_plugin.py:112-117 | the name is `target-version.zip` with the version between the `-` and `.zip`, or `target.zip` without the version |
| Packaging.WalkFiles | package_plugin.py:137-155 | each file of a directory is counted once, either added or excluded; the excluded count is the number of files the rules skip; every file not skipped is added as the directory's path plus its name, and every added entry is such a file |
| Packaging.Walk | package_plugin.py:134-155 | `files_added + files_excluded` equals the number of files in the directory and in its sub-directories that are not pruned, at any depth; `files_added` equals the number of entries, and every entry extends the directory's path by surviving directories and a name that is not skipped |
| Packaging.WalkDirs | package_plugin.py:134-135 | the sub-directories from position `i` on contribute, in added plus excluded files, exactly the visited files under those that survive pruning, and only entries under the parent's path |
| Packaging.WalkComplete | package_plugin.py:134-155 | every file the walk reaches through surviving directories, and does not skip, is added under its full relative path |
| Packaging.WalkDirsContains | package_plugin.py:134-135 | the walk of the sub-directories from `i` on keeps every entry of the walk from any later position |
| Packaging.WalkDirsHere | package_plugin.py:134-135 | an entry of a surviving sub-directory's walk is an entry of the walk of the sub-directories from that one on |
| Packaging.WalkDirsLater | package_plugin.py:134-135 | the walk from sub-directory `i` keeps every entry of the walk from `i + 1` |
| Packaging.WalkSound | package_plugin.py:134-155 | every entry the walk adds extends the directory's path by the relative path of a file the walk visits and does not skip |
| Packaging.PackageWith | package_plugin.py:130-155 | for any pruning and skipping rules, the walk under `target` counts every visited file once, and its entries are exactly `target` followed by the relative path of a visited file that is not skipped, each admitted |
| Packaging.Package | package_plugin.py:130-155 | under the script's own rules, every visited file is counted once, as added or excluded; an archive entry is `target` followed by a relative path iff that path names a file the walk visits (no pruned directory on the way) and does not skip; every entry's relative path is admitted |
| Packaging.UnderTarget | package_plugin.py:150-151 | an entry built under `[target]` is `target` followed by an admitted relative path |
| Packaging.NameWarnings | package_plugin.py:175-192 | the `ui_*.py` warning fires iff the basename starts with `ui_` and ends with `.py`; the `resources_rc.py` warning fires iff the basename is exactly that; the `.git` warning fires iff some component is `.git` |
| Packaging.UiNameLength | package_plugin.py:187 | a `ui_*.py` name has at least 6 characters, so the verifier's check and the exclusion regex agree |
| Packaging.GeneratedNamesSkipped | package_plugin.py:140-148 | `ui_*.py` and `resources_rc.py` files are skipped by the walk |
| Packaging.AdmittedBasenameIsNotGenerated | package_plugin.py:140-148 | a basename the walk admits is neither `ui_*.py` nor `resources_rc.py` |
| Packaging.AdmittedHasNoGit | package_plugin.py:135 | no component of an admitted path is `.git` |
| Packaging.AdmittedEntryPassesNameChecks | package_plugin.py:184-192 | on an admitted entry, the `ui_*.py` and `resources_rc.py` checks do not fire; the `.git` check does not fire unless the target name is `.git` |
| Packaging.PackagedArchivePassesNameChecks | package_plugin.py:184-192 | the same three checks never fire on any entry of an archive the walk produced |
| UvManager.UvPath | vantor/uv_manager.py:47-49 | the path starts with the uv directory and its basename is `uv.exe` on win32 and `uv` elsewhere; the path ends in `.exe` iff the platform is win32 |
| UvManager.ExeSuffix | vantor/uv_manager.py:47-49 | a path ending in the binary's name ends in `.exe` exactly on win32 |
| UvManager.PlatformInfo | vantor/uv_manager.py:67-79 | the extension is `.zip` iff the platform is win32, and `.tar.gz` otherwise; the target is an aarch64 build iff the platform is not win32 and the machine is `arm64`/`aarch64` |
| UvManager.PlatformTargets | vantor/uv_manager.py:67-79 | the table is total: every platform gets one of the five release targets, and every non-aarch64 target is x86_64 |
| UvManager.PlatformSystems | vantor/uv_manager.py:70-79 | darwin gets an Apple build; win32 gets the MSVC build whatever the machine; every other platform gets a Linux GNU build |
| UvManager.DownloadUrl | vantor/uv_manager.py:88-92 | the URL starts with the release prefix for the pinned version, and ends in `.zip` iff the platform is win32 |
| UvManager.ParseAssetUrl | vantor/uv_manager.py:88-92 | a parsed URL is exactly the prefix followed by the target and the extension |
| UvManager.DownloadUrlRoundTrip | vantor/uv_manager.py:88-92 | parsing the download URL gives back the platform answer it was built from |
| UvManager.TempArchiveFormat | vantor/uv_manager.py:168-169 | the temporary archive ends in `.zip` iff the platform is win32, so the extraction branch matches the archive format |
| UvManager.SafeExtract | vantor/uv_manager.py:104-126 | only members that are contained and written out without an exception are extracted, as a prefix of the member list; the run ends without error iff every member was extracted; on error, the stopping member is the next one: an escaping member gives the traversal message naming it, and a contained member whose extraction raised gives that exception's text |
| UvManager.ExtractionSucceedsIff | vantor/uv_manager.py:104-126 | extraction finishes without error iff every member resolves to the destination or under `dest + sep` and is written out without an exception |
| UvManager.FirstEscapeReported | vantor/uv_manager.py:104-107 | when every earlier member was written out, extraction stops at the first member that escapes the destination, and the error names that member and the archive's format |
| UvManager.FirstFailureReported | vantor/uv_manager.py:104-111 | when every earlier member was written out, an exception while writing out a contained member stops the extraction with that exception's text, ahead of any later escaping member |
| UvManager.ExtractionErrorNamesFirst | vantor/uv_manager.py:104-126 | the extraction error comes from the first member not written out: the traversal message naming it if it escapes, otherwise its exception's text |
| UvManager.SiblingPrefixRejected | vantor/uv_manager.py:106 | a sibling directory whose name merely starts with the destination's name is rejected |
| UvManager.FindFile | vantor/uv_manager.py:139-142 | the result is None iff no walked directory holds the file; otherwise it is the join of the first such directory and the name |
| UvManager.GatherFilesPrefix | vantor/uv_manager.py:231-234 | the listing loop gathers a prefix of the whole listing, and stops only once at least 20 names are gathered or the walk is exhausted |
| UvManager.ListedFilesAreFirstTwenty | vantor/uv_manager.py:230-235 | the names listed in the not-found message are the first twenty of the walk, or all of them when there are fewer |
| UvManager.VerifyUv | vantor/uv_manager.py:291-329 | it succeeds iff the binary is present and `uv --version` exits with 0, and then reports the stripped stdout; otherwise it reports `uv not found at …`, the timeout, `Verification failed: ` followed by the first 100 characters of stderr (or of `Unknown error` when stderr is empty), or `Verification error: ` followed by the first 100 characters of the exception text |
| UvManager.VerifyReportsShortStderr | vantor/uv_manager.py:322-324 | a stderr of at most 100 characters is reported whole, and an empty one as `Unknown error` |
| UvManager.DownloadUv | vantor/uv_manager.py:158-276 | an existing uv gives `uv already installed` with no progress; otherwise the run succeeds iff it is not cancelled, the download arrives, the archive and the uv directory are written and unpacking succeeds, and then it reports the installed message, all six percentages 0, 5, 50, 60, 80, 100, and has extracted only contained members and found the binary; a failed run reports a proper prefix of the percentages; a cancellation reports `Download cancelled`; a network error is reported as the missing-release message or `Download failed: `; a save or preparation error as `uv installation failed: ` with its text; once the archive is saved and the directory prepared, the outcome is exactly that of unpacking |
| UvManager.Unpack | vantor/uv_manager.py:217-276 | from opening the archive on, it succeeds iff the archive opens, every member is contained and written out, the binary is found and copied and `uv --version` exits 0; it reports at least four stages, and all six iff it succeeds; an open error or a copy error is reported as `uv installation failed: ` with its text; the extraction error is reported as `uv installation failed: ` followed by the traversal message for the archive's format (zip for a `.zip` asset, tar otherwise) naming the first escaping member, or the text of the first member's extraction exception, whichever member comes first; a missing binary gives the not-found message; a failed check gives `Verification failed: ` with the check's message |
| UvManager.ProgressRises | vantor/uv_manager.py:165-265 | the reported percentages rise strictly and never pass 100; 100 is reported iff the run installed uv |
| UvManager.EscapingMemberBlocksInstall | vantor/uv_manager.py:218-225 | an archive with a member outside the destination never installs |
| UvManager.MissingReleaseReported | vantor/uv_manager.py:184-193 | a network error mentioning 404 is reported as `uv <version> not available for this platform. URL: <url>`, after the 0 and 5 stages |
| UvManager.OtherNetworkErrorReported | vantor/uv_manager.py:184-193 | a network error mentioning neither `404` nor `Not Found` is reported as `Download failed: ` with its text, after the 0 and 5 stages |
| DepsManager.CleanEnv | vantor/deps_manager.py:162-172 | the five Python/QGIS variables are absent; `PYTHONIOENCODING` is `utf-8`; every other key keeps its value; no key is added except `PYTHONIOENCODING` |
| DepsManager.CleanEnvIdempotent | vantor/deps_manager.py:162-172 | cleaning a cleaned environment changes nothing |
| DepsManager.EnsureVenvPackages | vantor/deps_manager.py:105-111 | the result is whether the venv exists; without the venv the path list is unchanged; with it, site-packages is in the list; the list is left as is when site-packages is already present, and otherwise gets at most one entry at its front |
| DepsManager.EnsureVenvPackagesIdempotent | vantor/deps_manager.py:98-111 | calling it twice is the same as calling it once |
| DepsManager.CheckDependencies | vantor/deps_manager.py:120-135 | one entry per requirement, in order, with its names; an entry is installed iff the import succeeded, and then carries the version it found |
| DepsManager.MissingPackages | vantor/deps_manager.py:147-153 | a pip name is listed iff some dependency with that name is not installed |
| DepsManager.MissingKeepsOrder | vantor/deps_manager.py:153 | the missing list is the pip names of the not-installed dependencies, in requirement order |
| DepsManager.AllMetIffNoneMissing | vantor/deps_manager.py:138-153 | all dependencies are met iff the missing list is empty, given the same import results |
| DepsManager.InstallerPrefix | vantor/deps_manager.py:473-492 | the uv form is exactly `uv pip install --python <py> --upgrade`; the pip form is exactly `<py> -m pip install --upgrade --disable-pip-version-check --prefer-binary`; both name the venv's interpreter |
| DepsManager.InstallCommand | vantor/deps_manager.py:473-492 | the command is the installer prefix followed by the packages, in the order given |
| DepsManager.ShortenError | vantor/deps_manager.py:509-510 | text of at most 1000 characters is kept whole; longer text becomes `...` followed by its last 1000 characters, so the result has at most 1003 characters |
| DepsManager.InstallResult | vantor/deps_manager.py:507-514 | it succeeds iff the exit status is 0, with `Packages installed successfully.`; a failure message is `uv pip install failed:` or `pip install failed:`, a newline, and the shortened error text, which is stderr when non-empty, else stdout when non-empty, else `Unknown error`; it embeds at most 1003 characters of it |
| DepsManager.InstallFailureQuotesOutput | vantor/deps_manager.py:507-512 | with streams of at most 1000 characters, the message quotes stderr whole when it is non-empty, otherwise stdout whole when it is non-empty, otherwise `Unknown error` |
| DepsManager.InstallFailureKeepsTail | vantor/deps_manager.py:508-512 | a failure with more than 1000 characters of stderr reports `...` followed by the last 1000 of them |
| DepsManager.BestPythonEntry | vantor/deps_manager.py:216-236 | None iff no entry qualifies; otherwise the chosen entry qualifies, has the largest version number among qualifying entries, and is the first entry with that number |
| DepsManager.CandidatePath | vantor/deps_manager.py:231 | the candidate's basename is `python.exe` |
| DepsManager.VerifyPip | vantor/deps_manager.py:305-344 | the check gives the venv's interpreter iff `ensurepip` completed (whatever its exit status) and `pip --version` exited with 0; it never ends in the final error |
| DepsManager.CreateVenv | vantor/deps_manager.py:347-448 | the run's attempts and clean-ups are an odd-length prefix of the full fallback chain (strategy 0 only when uv exists); a success gives the venv's interpreter; the final error is raised only after the whole chain, with the five identity details and strategy 1's output; a working uv venv wins at once, and an exception from the uv run escapes at once; when strategy 0 is absent or completes without yielding, the result is that of strategies 1 to 3, after the attempt and clean-up of strategy 0 if uv exists |
| DepsManager.FromVenvModule | vantor/deps_manager.py:384-448 | strategies 1 to 3 follow the uv-less chain: an exception from `-m venv` escapes at once; a working `-m venv` returns its pip check's outcome after one attempt; otherwise a working EnvBuilder returns its pip check's outcome after three events; otherwise strategy 3 decides after the whole chain |
| DepsManager.WithoutPip | vantor/deps_manager.py:412-448 | without a working `--without-pip` run the final error is raised; with one, its pip check decides, except that an OS or subprocess error from that check falls through to the final error; only a `RuntimeError` escapes |
| DepsManager.FirstYieldDecides | vantor/deps_manager.py:384-408 | when strategy 1 or 2 is the first to yield the interpreter, the outcome is that strategy's pip check, and the trace stops at its attempt |
| DepsManager.LastStrategyDecides | vantor/deps_manager.py:412-448 | when strategy 3 is the first to yield, the whole chain runs; its pip check decides, unless that check raises an OS or subprocess error, which ends in the final error |
| DepsManager.AllFailRaises | vantor/deps_manager.py:367-448 | when every strategy fails without an exception, the final error is raised with its details after the whole chain |
| DepsManager.CreatedByLastAttempt | vantor/deps_manager.py:367-428 | a created venv comes from the trace's last attempt; that strategy was the first to yield the interpreter, and for strategies 1 to 3 its pip check passed |
| DepsManager.CreatedByLaterAttempt | vantor/deps_manager.py:383-428 | when strategy 0 is absent or fails, a venv created by strategies 1 to 3 comes from the last attempt, which is the first of them to yield the interpreter, and its pip check passed |
| DepsManager.FallbackOrder | vantor/deps_manager.py:367-428 | strategies are attempted in increasing order; strategy 0 is attempted iff uv exists; every clean-up directly follows a failed attempt of strategies 0–2, and every attempt but the last is followed by one; the run ends on an attempt |
| DepsManager.SubprocessErrorReported | vantor/deps_manager.py:401-439 | the final error carries a sixth `Subprocess error:` detail iff strategy 1 exited non-zero with some output |
| Workers.CatalogWorker | vantor/workers.py:24-30 | the worker emits exactly one signal: `finished` with the catalog entries iff the fetch succeeds, otherwise `Failed to fetch catalog: ` plus the error |
| Workers.ItemsWorker | vantor/workers.py:52-58 | the worker emits exactly one signal: `finished` with the items iff the fetch succeeds, otherwise `Failed to fetch items: ` plus the error |
| Workers.ErrorTextRoundTrip | vantor/workers.py:26-30 | removing the worker's prefix from the error text gives the exception text back |
| Workers.StartPctMonotone | vantor/workers.py:91-98 | the percentage announced before task `i` rises with `i`, and stays at or below 100 up to the last task |
| Workers.ChunkPctMonotone | vantor/workers.py:117-125 | progress within a task never goes back as bytes arrive |
| Workers.ChunkPctWithinTask | vantor/workers.py:119-125 | chunk progress is at least the task's start percentage; while at most Content-Length bytes have arrived, it is at most the next task's start percentage |
| Workers.StartOfTransfer | vantor/workers.py:119-121 | with a known size and no bytes yet, the chunk formula gives the task's start percentage |
| Workers.TargetPathIsIdTif | vantor/workers.py:100-101 | a task's file is `<item_id>.tif`, placed directly in the output directory |
| Workers.ReadChunks | vantor/workers.py:109-128 | the inner loop passes at least one checkpoint; it emits percentages only with a known size, and they do not decrease; they start at or above the task's start and stay at or below the next task's start when Content-Length is honoured; it raises only when a read does, and only when its last checkpoint read did not see the flag |
| Workers.TaskEventsOrder | vantor/workers.py:95-128 | a task's signals all belong to it; only the first is a start signal, and it announces the task's percentage |
| Workers.TaskEventsProgress | vantor/workers.py:95-128 | a task's signals start at its start percentage and rise; they stay at or below the next task's start when Content-Length is honoured |
| Workers.TaskTurn | vantor/workers.py:95-134 | one pass of the loop body opens with the task's start signal, moves past its checkpoint, and raises only when the response does |
| Workers.TaskTurnKept | vantor/workers.py:130-134 | a pass increments the counter once iff its transfer raised nothing and the read after it did not see the flag |
| Workers.TaskTurnRanks | vantor/workers.py:95-134 | every event of a pass belongs to its task |
| Workers.TaskTurnStarts | vantor/workers.py:91-98 | a pass's only start signal announces its task's percentage after the checkpoint read it entered on |
| Workers.TaskTurnEnds | vantor/workers.py:130-134 | a pass keeps its file only after a read that did not see the flag; it removes its file only after a read that saw the flag, as its last event, when the transfer raised nothing |
| Workers.TaskTurnProgress | vantor/workers.py:95-128 | a pass's signals start at its task's percentage; they rise and stay at or below the next task's start when Content-Length is honoured |
| Workers.BodyBehaves | vantor/workers.py:95-134 | the loop body has all five per-pass properties above, for every task and checkpoint |
| Workers.RunTasks | vantor/workers.py:91-134 | the loop only moves forward through the checkpoint reads, and raises only when some response fails |
| Workers.RunTasksCounts | vantor/workers.py:89-134 | the counter equals the number of kept files; when nothing raised and the final read did not see the flag, every remaining task was kept |
| Workers.RunTasksOrder | vantor/workers.py:91 | tasks are processed in list order: every event belongs to a task at or after `i`, and the task never goes back |
| Workers.StartsHonourFlag | vantor/workers.py:91-98 | a task starts only after a checkpoint read that did not see the flag, announcing `int(i/total*100)` |
| Workers.KeepsHonourFlag | vantor/workers.py:130-134 | a file is counted only after a read that did not see the flag |
| Workers.RemovalEndsRun | vantor/workers.py:110-134 | a partial file is removed only after a read that saw the flag, nothing follows the removal, and the run ends as cancelled |
| Workers.RunTasksFloor | vantor/workers.py:95-128 | no signal from task `i` on is below task `i`'s start percentage |
| Workers.RunTasksAtMost | vantor/workers.py:95-128 | when every response honours its Content-Length, no percentage passes 100 |
| Workers.RunTasksRises | vantor/workers.py:95-128 | when every response honours its Content-Length, the percentages never go back across the whole loop |
| Workers.DownloadRun | vantor/workers.py:84-148 | success reports `Successfully downloaded {total} file(s) to {dir}` after a final 100 signal; failure reports the cancellation message with the counter, or starts with `Download failed: `; a failing `makedirs` fails at once; with no cancellation and no failure the run succeeds |
| Workers.DownloadUnfold | vantor/workers.py:136-145 | the run succeeds iff the loop raised nothing and the final read did not see the flag; a run that did not raise but fails reports the cancellation message |
| Workers.DownloadCounts | vantor/workers.py:130-145 | the reported counter equals the number of kept files, and a successful run kept every file |
| Workers.DownloadProgress | vantor/workers.py:95-141 | when every response honours its Content-Length, the progress signals of the whole run never go back and never pass 100 |
| Workers.DownloadOrder | vantor/workers.py:91-141 | files are handled in list order, and the closing signal comes after every task's events |
| Workers.DownloadHonoursFlag | vantor/workers.py:91-134 | every task starts and every file is counted only after a checkpoint read that did not see the flag; a partial file is removed only in a run reported as cancelled, and it is the last event |
| Workers.CancelBeforeStart | vantor/workers.py:91-93 | a flag raised before the first check gives no signal, no file, and `Download cancelled. 0 file(s) completed.` |
| MainDock.SearchBbox | vantor/dialogs/main_dock.py:365-390 | a drawn box wins; otherwise the map extent is used when its option is on; with neither there is no box |
| MainDock.SearchResults | vantor/dialogs/main_dock.py:415-425 | the search raises iff the lower-cased selector is not `"all"` and some fetched item inside the box (when there is one) has a phase that is present but not a string; otherwise an item is a result iff it was fetched, lies in the box when there is one, and has the selected phase unless the selector is `"all"` |
| MainDock.SearchIsOneSelection | vantor/dialogs/main_dock.py:415-425 | a search that does not raise is a single order-preserving selection of the fetched items by the combined box-and-phase condition |
| MainDock.SearchFiltersCommute | vantor/dialogs/main_dock.py:415-425 | when the selector filters and every phase is a string, applying the phase filter first and the box filter second gives the same list |
| MainDock.SearchIdempotent | vantor/dialogs/main_dock.py:415-425 | searching the results of a search that did not raise again, with the same settings, gives the same results |
| MainDock.ItemsById | vantor/dialogs/main_dock.py:743 | the lookup has a key iff some item has it, and maps it to the last item carrying it |
| MainDock.LastItemWins | vantor/dialogs/main_dock.py:743 | the last item with a key is the one the lookup returns for it |
| MainDock.CheckedFrom | vantor/dialogs/main_dock.py:745-750 | the result is the checked rows whose id text is a known key, in row order, each paired with its lookup item; every such row appears |
| MainDock.CheckedItemsAsWritten | vantor/dialogs/main_dock.py:743-751 | the pairs are in row order; a pair is a checked row whose id text is some item's `id` (or `""` for an item without one), paired with the last such item; and every such checked row appears |
| MainDock.UnnamedItemNeverSelected | vantor/dialogs/main_dock.py:743-751 | an item without an id is shown as `Unknown` but looked up under `""`, so checking its row selects nothing |
| MainDock.DisplayId | vantor/stac_client.py:226 | the id the table shows is the display properties' id |
| MainDock.CheckedItems | vantor/dialogs/main_dock.py:743-751 | every selected pair is a checked row showing the id of the fetched item it is paired with; the pairs are in row order |
| MainDock.ShownRowSelected | vantor/dialogs/main_dock.py:743-751 | every checked row that shows a fetched item's id is selected, paired with the last item showing that id |
| MainDock.UsableCog | vantor/dialogs/main_dock.py:816-817 | a COG URL is used iff `get_cog_url` returns it without raising and it is truthy |
| MainDock.DownloadList | vantor/dialogs/main_dock.py:814-818 | the loop raises iff `get_cog_url` raises on some checked item, with the error of the first such item; otherwise the list holds one `(id or "unknown", url)` entry per checked item with a usable COG URL, and nothing else |
| MainDock.DownloadListInOrder | vantor/dialogs/main_dock.py:814-818 | a list built without raising is the entries of the downloadable checked items, in checked order |
| MainDock.DownloadSelected | vantor/dialogs/main_dock.py:801-823 | an empty selection is reported as such; with a directory chosen, the loop's exception escapes iff some COG lookup raises; otherwise the worker starts iff some checked item is downloadable, and it gets the non-empty download list and the directory |
| MainDock.AddedLayers | vantor/dialogs/main_dock.py:775-791 | the loop raises iff some checked item's COG lookup raises; at most one layer per checked item with a usable COG URL; each layer opened, and carries that item's id (or `Unknown`) and URL |
| MainDock.VisualizeSelected | vantor/dialogs/main_dock.py:767-797 | an empty selection reports `No items selected. Check items first.`; the handler raises iff some checked item's COG lookup raises; otherwise it reports `Added N raster layer(s).` with N the number of layers added, at most the number of downloadable items, which is at most the number checked |
| MainDock.AllLoadedMatchesDownloads | vantor/dialogs/main_dock.py:775-818 | when every raster opens, visualizing adds one layer per item the download button would fetch, with the same URL, in the same order |
| MainDock.DateColumn | vantor/dialogs/main_dock.py:473-476 | a falsy scalar datetime shows `""`; a string shows its first ten characters, all of it when it is shorter than ten; any other truthy value and any list or object raises |
| MainDock.IsoTimestampShowsDate | vantor/dialogs/main_dock.py:473-475 | an ISO 8601 timestamp shows as its calendar date |
| MainDock.DateColumnIdempotent | vantor/dialogs/main_dock.py:557 | the shown date is a fixed point of the truncation |

## Left out

- Network and JSON decoding. `_fetch_json`, `urlopen`, `QgsBlockingNetworkRequest` and the response stream are replaced by the values they return.
- `urljoin`. Relative reference resolution (section 5.2 of RFC 3986) is a function parameter; only the absolute-URL passthrough is stated.
- Processes and the file system. Subprocess runs, `shutil`, `tarfile`, `zipfile`, `os.walk`, `realpath` and `importlib` probing are inputs: run results, resolved member paths, walk listings, an import oracle.
- `realpath` is not modelled. Member paths arrive already resolved, so symlinks are outside the model.
- Threads and signals. The cancellation flag is modelled by the index of the first checkpoint read that sees it, not as concurrency.
- Qt and QGIS widget code is not modelled: the table widgets, layer styling, footprints, the highlighter, the map tools, the settings dock and the plugin entry point.
- Progress formatting. The MB and elapsed-time strings in the progress messages are not modelled, and neither is the scaled sub-progress of `DepsInstallWorker`.
- Workers.StartPct: uses the exact floor of `100*i/total`, not float rounding. Python's `int(i/total*100)` can round down one step further (29/100*100 is 28.999…), so the exact percentages the worker emits can differ by one.
- Workers.ChunkPct: likewise an exact floor, not Python's float arithmetic.
- UvManager.DownloadUv: `tempfile.mkstemp` (vantor/uv_manager.py:169) runs before the `try` block, so its exception escapes `download_uv` after the 0% signal instead of giving a `(False, message)` result; the model takes the temporary file to be created and does not promise anything for that run.
- UvManager.DownloadUv: the `except InterruptedError` branch (vantor/uv_manager.py:271) is not modelled; nothing the model observes raises it, since cancellation is read only at the two explicit checks.
- Workers.DownloadRun: the progress signals are modelled by their percentages; the texts sent with them (`Downloading <id> (<i>/<n>)...` at the top of a task and without the dots after a chunk, vantor/workers.py:97, 126) are not.
- Workers.DownloadRun: the `os.path.exists` test before a partial file is removed is not modelled. A partial file exists once its transfer ran, so the test is taken as true.
- Workers.DownloadRun: an exception in mid-download leaves the partial file on disk, because the code removes files only on cancellation; the model follows the code.
- `DepsInstallWorker` orchestration is not modelled: the step sequence of uv download, venv creation and install, with its progress scaling.
- `remove_uv` is not modelled; it only removes a directory.
- The other dependency-manager helpers: `venv_exists`, `get_venv_python_path`, `get_venv_site_packages`, `_create_venv_with_env_builder` and `_try_copy_python_executable` are file-system queries or effects. They appear only as boolean inputs to `create_venv`.
- `_find_python_executable` strategies 1, 2, 3 and 5 are not modelled; they are file-system probes. Only strategy 4's choice is modelled.
- Text.Lower, Text.Strip and Text.DigitsOf: they act on ASCII only. Python's `lower`, `strip` and `isdigit` also act on non-ASCII letters, whitespace and digits.
- `os.path.join` is modelled for one separator without drive letters, so Windows drive-relative joining is not modelled.
- The exclusion patterns are prefix/suffix predicates. Python's `$` also matching before a trailing newline is not modelled: file names are taken to contain no newline.
- `verify_zip`'s `__pycache__` and `__MACOSX` substring checks are computed by `Packaging.NameWarnings` but not stated. Directory pruning keeps those names out of every path component, but a file name could still contain them as a substring.
- Stac.CatalogEntries: a link's `title` is taken to be absent or a string. A present `"title": null` makes `link.get("title", fallback_name)` give `None`, so the entry's id and title are both `None` (vantor/stac_client.py:63-67); `Stac.Link` cannot express that case, and the model gives the fallback name only for a missing title.
- Stac.Item: decoded documents are taken to be well-typed where the code uses them without a check: a `bbox` is a list of numbers (vantor/stac_client.py:140-144), `assets` is an object whose values, and a truthy `visual` asset, are objects (vantor/stac_client.py:188-193), `properties` is an object (vantor/stac_client.py:224), `links` is a list of objects (vantor/stac_client.py:107-108) and an `href` is a string (vantor/stac_client.py:41-42). `Stac.FilterByBbox`, `Stac.CogUrl`, `Stac.ThumbnailUrl` and `Stac.ItemProperties` therefore do not model the exceptions such malformed documents raise.
- Item ids in `Stac.Item` are a missing-or-string option; a JSON `null` id is not modelled separately.
- COG URLs are carried as JSON values, as the source does not check that `href` is a string.
- MainDock.DateColumn: a datetime that is a list, an object or a truthy number raises in the source, at the slice for a number or a non-empty object and when `QTableWidgetItem` receives the value (vantor/dialogs/main_dock.py:476) for a list or an empty object; the model returns None for all of them and does not say which statement raised or with what text. A float zero is not told apart from an integer zero, so both show `""`.
- JsonValue.PyTypeName: a JSON number is named `int` when its value is integral and `float` otherwise. A document number written `1.0`, which Python decodes as a float, is therefore named `int`, so an error text that quotes the type can differ.
- The row, id-cell and checkbox objects of the table are reduced to `(checked, id text)` pairs. Table sorting is not modelled, because the lookup is by id, not by row.

## Findings

| source | as written | input that shows it | evidently intended | confidence | as-written member | corrected member |
|---|---|---|---|---|---|---|
| vantor/dialogs/main_dock.py:743-751 | the lookup is keyed by `item.get("id", "")`, while the table's id column shows `get_item_properties(item)["id"]`, which defaults to `"Unknown"` | a fetched item with no `id` member, whose row shows `Unknown` and is checked | a checked row resolves to the item it displays | medium, not executed | MainDock.UnnamedItemNeverSelected | MainDock.ShownRowSelected |
