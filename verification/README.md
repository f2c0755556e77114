# AdavaLinux tools: models and proofs

This project models the parts of the AdavaLinux tools that change a system, and proves what they keep.
Run `dafny verify dfyconfig.toml` to check everything.

* **The old package manager** (`tools/syspckg-old/main.c`). Version comparison (`Versions`), the pickers that
  look for a latest version (`Pickers`), update offers (`Updates`), the dependency closure (`PlanQueue`), the
  install order (`InstallOrder`), the install transaction with its phases (`Transaction`), recursive removal
  (`DependencyRemoval`), and files and manifests: what is written and read (`Manifest`, `ManifestText`,
  `ManifestCuts`), what a copy and a removal do to a tree (`PackageTree`), the store (`PackageStore`), a package that
  is installed and removed (`PackageRemoval`), and inputs with surprises (`PackageExamples`).
* **The Fedora bootstrap of the new package manager** (`tools/syspckg/main.cpp`). A tree of files
  (`FileTree`), what merging a directory into another means (`TreeMerge`), the usr-merge (`UsrMerge`), what can be
  read through links after it (`UsrLinks`), and the run that saves and restores core files, flags and the RPM macro
  around an arbitrary transaction (`Bootstrap`).
* **The installer** (`tools/installer/`). Device names (`Devices`), the table of mounts (`MountTable`), the guarded
  run that partitions and formats (`InstallerRun`), the account files (`LineFiles`, `AccountFiles`), and the wizard:
  its meaning as a machine over answers (`Wizard`), which keys give which answers (`WizardKeys`), that they decide
  them (`WizardRuns`), the program that reads key strokes and hands over to the run (`WizardScreens`), and what can be
  typed at all (`WizardReach`).

Code that changes things in place is a class or a method with loops; what it should mean is a function or a
predicate beside it, and the promises are lemmas about that function. Steps that call foreign code (commands,
mounts, downloads, RPM, package hooks, copies that may fail) may fail in any combination: a run is given what goes
wrong in it (a `Trouble`, a `Weather`, a set of failing hooks), every theorem holds for all of that, and the contracts
say exactly which result and which steps follow from it. In the package store, where every system call may fail, a
field `calm` stands for none of them failing.

## Main results

* `compare_versions` is a total preorder on all strings and equals the lexicographic order on token keys with
  numbers saturated at `LONG_MAX`; every picker returns a first maximum, and the listing order only decides ties.
* Once an offered update is installed under its name, the same listing offers nothing for it, for every version
  text. Splitting `base-version` gives the parts back exactly under a condition on base and version.
* The worklist ends with exactly the closure of the request; the depth-first search finds an order exactly if the
  resolved dependency graph is acyclic; together, every dependency is there already or stands earlier.
* No install hook runs before everything is staged and the linker cache refreshed; each pending plan is staged once
  and its hook tried once, after those of its dependencies. In an update exactly the packages with another version
  installed lose it, directly before the new one is staged. The result is zero exactly if nothing that can fail does,
  and then every wanted package that was not installed is staged and its hook has passed.
* Removal with dependencies goes through the reachable packages in depth-first order and stops before the first that
  cannot go. It removes all of them, for every number of packages, exactly if each of them can be removed and the calls
  nest at most 65 deep; then only the linker cache can still make the command fail.
* Reading a manifest inverts writing it exactly on clean paths. Install followed by removal restores every other
  file; the directories that stay behind are characterised exactly. A package whose remove hook cannot be saved is
  taken out again by the manifest just written, and a failed install of it leaves every file as it was.
* The promise that removals never touch a core library does not hold as it stands: a path can hide one from the test,
  the writing of a manifest may stop at any byte, and a package may bring a file that is then read as a manifest. An
  install leaves no listing manifest, however it ends, exactly if the package does none of this. Over all sequences
  of operations on such packages, through any linked directories, no manifest ever lists a core library if none does
  at the start, and no removal unlinks one.
* The usr-merge, where directories meet only links back to themselves, fails exactly if a directory meets a file.
  Whether it succeeds or breaks off half-way, every entry is still in its old place, stands in its new one or has
  yielded to a file or a directory there, unless a link hides it: another link in its new place, or one above it. On
  success the hidden entries are gone, and behind links that lead back nothing can be read any more. Where the
  directory in `/usr`, or `/usr` itself, leads back, the whole legacy directory is deleted. A second preparation
  changes nothing.
* Over any sequence of bootstrap runs every core file that is lost was obstructed, or its copy back failed, in one of
  the runs; without that, all of them stand. The macro stays balanced, and the ready marker appears only after a
  transaction that completed. The transaction flags at the end are the first ones exactly unless some run ended by a
  failed download or by a throw of the backup or of the usr-merge; a throw inside the try block does restore them.
  What is not resolved, not wanted or declined changes nothing. A bootstrap transaction runs once, under flags that
  were set before the goal was resolved and with the macro overridden, between the backup and the restoring.
* A partition belongs to one disk only; `parent_disk` leads back to it for every buffer size, with the two
  exceptions spelled out. A run that touches a disk has cleared it of the media and of the running root as the table
  of mounts is read; the table is read right exactly if every field fits 127 characters, and a longer mount point can
  hide the root. What stands behind the root's line does not matter.
* Each account file ends with the two new records and all others unchanged; on a file without a final newline root's
  record is found exactly if the last line was root's.
* The settings the wizard can be made to return, over all key strokes, are exactly the good ones that can be typed;
  the keys and what the scans meet leave no choice of answers.
  Nothing is erased unless `ERASE` and the name of that very disk were typed and confirmed, and what is run is the
  script of the accepted settings: every step up to the first that fails, and none that the settings do not call for.

## Model

| member | source | states |
|---|---|---|
| Versions.CompareVersions | tools/syspckg-old/main.c:1285-1348 | the two-cursor loop returns the sign of the lexicographic order on the token keys of both strings |
| Versions.SkipSeparators | tools/syspckg-old/main.c:1289-1294 | skipping separators changes no token |
| Versions.ScanToken | tools/syspckg-old/main.c:1298-1313 | the scan takes exactly the first token and knows whether it is all digits |
| Versions.CompareToken | tools/syspckg-old/main.c:1314-1339 | numbers by saturated value, numbers above words, words by bytes and then by length |
| Versions.StrtolReadsTheToken | tools/syspckg-old/main.c:1317-1318 | strtol at a token's start reads exactly that token, saturated at LONG_MAX |
| Versions.Strncmp | tools/syspckg-old/main.c:1329 | the comparison loop has the sign of the byte order of the two prefixes |
| Versions.TextTrichotomy | tools/syspckg-old/main.c:1328-1338 | word comparison is zero only on equal words, negative exactly for the independent byte order, and antisymmetric |
| Versions.KeysTrichotomy | tools/syspckg-old/main.c:1285-1348 | key comparison is zero only on equal lists and negative exactly for the independently stated lexicographic order |
| Versions.KeysTransitive | tools/syspckg-old/main.c:1285-1348 | key comparison is transitive, strictly if one side is strict |
| Versions.VersionOrderIsTotalPreorder | tools/syspckg-old/main.c:1285-1348 | reflexive, sign-antisymmetric, transitive and total on all strings; equal exactly on equal keys |
| Versions.EmptyVersionIsLeast | tools/syspckg-old/main.c:1341-1347 | no version is below the empty one |
| Versions.NumbersCompareByValue | tools/syspckg-old/main.c:1314-1339 | two numbers compare by value up to LONG_MAX, above that they are equal, and a word comes before every number |
| Versions.CommonBaseIsIrrelevant | tools/syspckg-old/main.c:1285-1348 | a common beginning before a separator does not affect the comparison |
| Text.ClassesByCode | tools/syspckg-old/main.c:691-733 | the character classes of names and versions, by their codes |
| Text.HasDigitIs | tools/syspckg-old/main.c:1265-1272 | a text has a digit exactly if one of its characters is one |
| Pickers.Between | tools/syspckg-old/main.c:1557-1576 | the version cut out of a name gives the name back with its prefix and suffix |
| Pickers.BetweenFinds | tools/syspckg-old/main.c:1557-1576 | every non-empty version between prefix and suffix is found |
| Pickers.ArchivesAreFound | tools/syspckg-old/main.c:1557-1576 | the version in an archive's name is found exactly if it fits and, in a remote listing, is safe |
| Pickers.InstalledFinds | tools/syspckg-old/main.c:1502-1526 | a manifest base-w.list yields version w, for every w that fits; one with a dot behind the base yields the version-less entry |
| Pickers.InstalledReads | tools/syspckg-old/main.c:1502-1526 | nothing else yields a version |
| Pickers.BootFinds | tools/syspckg-old/main.c:2566-2582 | prefix, a safe version of at most 127 characters and suffix yield that version |
| Pickers.OlderIsStrictWeakOrder | tools/syspckg-old/main.c:1592 | the test the pickers use is a strict weak order |
| Pickers.PickLatest | tools/syspckg-old/main.c:1578-1603 | the running maximum returns nothing exactly if nothing matches, and else the first candidate no other exceeds |
| Pickers.ResolveLatestLocal | tools/syspckg-old/main.c:1350-1395 | the local archive returned is listed and at least as new as every other matching archive; none is returned only if none matches |
| Pickers.IsNewer | tools/syspckg-old/main.c:1483-1542 | the test against the best so far is the version order, whether or not a version has been seen |
| Pickers.ResolveLatestInstalled | tools/syspckg-old/main.c:1483-1542 | the installed package returned is a first maximum: base-v for the newest v of all manifests base-v.list, a version-less one only if no listed version is newer than the empty one; nothing only if there is neither |
| Pickers.LatestIsUnique | tools/syspckg-old/main.c:1578-1603 | there is one first maximum |
| Pickers.ListingOrderOnlyBreaksTies | tools/syspckg-old/main.c:1578-1603 | two listings of the same names give answers that compare equal |
| Pickers.LatestBootVersion | tools/syspckg-old/main.c:2545-2595 | latest is the newest safe version that has a boot file, previous the newest of the others, empty exactly when there is none |
| Pickers.TopTwoStep | tools/syspckg-old/main.c:2583-2591 | one more version keeps the pair of the two largest |
| Updates.VersionFromInstallName | tools/syspckg-old/main.c:1747-1763 | the version found makes up the install name together with the base |
| Updates.SafeNameIs | tools/syspckg-old/main.c:691-733 | which characters a package name and a version may hold |
| Updates.PackageBaseIs | tools/syspckg-old/main.c:1255-1272 | directories and a ".syspckg" ending do not count for the base of a selector |
| Updates.ExplicitVersionIs | tools/syspckg-old/main.c:1274-1283 | a selector names a version exactly if there is a digit behind its last dash |
| Updates.InstallNamesCompareAsVersions | tools/syspckg-old/main.c:1851-1900 | comparing install names of one base agrees with comparing their versions |
| Updates.SplitRecoversParts | tools/syspckg-old/main.c:1715-1763 | splitting base-version gives the base back exactly if the base is safe and unreserved and the version, without archive suffix, is dash-free with a digit |
| Updates.ParseInstalled | tools/syspckg-old/main.c:1765-1811 | a parsed manifest name is its base, a dash and its non-empty version |
| Updates.ReservedAreSkipped | tools/syspckg-old/main.c:1715-1763 | an installed base-version is split into its parts unless the base is unsafe, adavalinux, kernel or syspckg |
| Updates.FindRemoteUpdate | tools/syspckg-old/main.c:1851-1900 | an offer is listed, strictly newer than what is installed and a maximum; no offer means the listing holds nothing newer |
| Updates.ReparsedBase | tools/syspckg-old/main.c:1715-1731 | reading an install name back gives its base or a longer one with part of the version |
| Updates.BoundSurvivesReparsing | tools/syspckg-old/main.c:1715-1900 | a bound on a listing survives when part of the version moves into the base |
| Updates.InstalledOfferIsFinal | tools/syspckg-old/main.c:1813-1900 | once the newest listed version is installed, the listing holds nothing newer for the name as it is read back |
| Updates.OfferIsSettled | tools/syspckg-old/main.c:1813-1900 | an installed offer gets no further offer from the same listing |
| Updates.UpdateRoundSettles | tools/syspckg-old/main.c:1902-1971 | after a round that installs every offer, no package has an offer |
| InstallOrder.FindPlanByDependency | tools/syspckg-old/main.c:1179-1188 | the first plan that answers the dependency, or -1 exactly if there is none |
| InstallOrder.NamesAreAnswered | tools/syspckg-old/main.c:1179-1198 | a dependency written as install name, package name or selector of a plan is answered, by the first plan with such a name |
| InstallOrder.OrderBuilder.Visit | tools/syspckg-old/main.c:1200-1220 | a visit ends with the plan done and everything before it kept, or with a cycle found; it ends because unseen plans shrink |
| InstallOrder.BuildInstallOrder | tools/syspckg-old/main.c:1224-1243 | an order is found exactly if the resolved graph, self-loops included, is acyclic; it is a permutation with dependencies first |
| InstallOrder.OrderedIsAcyclic | tools/syspckg-old/main.c:1224-1243 | a dependencies-first permutation exists only for acyclic graphs |
| PlanQueue.PlanIsExact | tools/syspckg-old/main.c:3220-3305 | a selector gets a plan exactly if its archive is known, its metadata is safe and built for this system; the install name is the package name if that ends in the version, else name-version; the plan counts as installed exactly if that name is, except in an update with dependencies |
| PlanQueue.SafeIdIs | tools/syspckg-old/main.c:707-721 | which characters a system id may hold |
| PlanQueue.FindInstalledForUpdate | tools/syspckg-old/main.c:1813-1849 | the newest installed package with the same base, or nothing exactly if there is none |
| PlanQueue.FindPlanBySelector | tools/syspckg-old/main.c:1168-1177 | found exactly if some plan carries the selector |
| PlanQueue.PushDependencies | tools/syspckg-old/main.c:3315-3331 | every followed dependency is queued, nothing else is, and nothing twice |
| PlanQueue.CollectPlans | tools/syspckg-old/main.c:3198-3342 | the worklist ends; it stops exactly if the request itself is refused, and else the plans and the missing names are exactly the closure of the request |
| PlanQueue.ClosureIsComplete | tools/syspckg-old/main.c:3186-3331 | with nothing missing: the requests have plans unless they name an installed version; without dependencies nothing else has; with them every safe dependency of a plan, other than itself, has one or names an installed version |
| PlanQueue.ClosedAndOrdered | tools/syspckg-old/main.c:3198-3412 | with nothing missing, every followed dependency of every plan is there already or answered by a plan earlier in the order |
| PlanQueue.SelfDependencyIsACycle | tools/syspckg-old/main.c:1205-1209 | a dependency on itself is not followed by the worklist but makes the order fail |
| Transaction.InstallRun.Extract | tools/syspckg-old/main.c:3382-3407 | every pending plan is extracted in order up to the first that fails to unpack, and success means there is none |
| Transaction.InstallRun.StageOne | tools/syspckg-old/main.c:3420-3455 | the steps of staging one plan: in an update another version goes first; a rollback follows exactly a remove hook that could not be saved; a plan that fails is no longer extracted; it succeeds exactly if nothing it needs fails |
| Transaction.InstallRun.StageAll | tools/syspckg-old/main.c:3416-3465 | every pending plan is staged once and in order, whatever fails; the cache is refreshed exactly if none failed and the refresh works |
| Transaction.InstallRun.TryHook | tools/syspckg-old/main.c:3472-3478 | one attempt, followed by a rollback exactly if it fails |
| Transaction.InstallRun.RunHooks | tools/syspckg-old/main.c:3467-3483 | the hooks of the pending plans are tried in order, whatever fails |
| Transaction.InstallRun.Install | tools/syspckg-old/main.c:3382-3497 | which steps are done, and that the result is zero exactly if everything unpacks, the graph is acyclic and nothing fails in staging, hooks, cache or boot configuration |
| Transaction.InstallRun.Download | tools/syspckg-old/main.c:3352-3363 | the archives are put in place in order up to the first that cannot be copied |
| Transaction.InstallRun.Run | tools/syspckg-old/main.c:3171-3497 | nothing is done unless the plans are a full closure and the user confirmed; then exactly the steps of an install, in order; the result is zero exactly if the request is not refused, nothing is missing and nothing fails; zero after a confirmation means every wanted and accepted package whose install name was not installed is staged and its hook passed; one whose name was is staged only in an update with dependencies |
| Transaction.TraceIsGood | tools/syspckg-old/main.c:3382-3483 | in every run the phases come in order, only pending plans are staged, and an old version goes only in an update, only for another version and directly before that one is staged |
| Transaction.OldVersionsGo | tools/syspckg-old/main.c:3427-3429 | a plain install removes no old version; an update whose staging goes through removes exactly those of the pending plans whose newest installed package of the same base is another one |
| Transaction.HooksSeeAllPayloads | tools/syspckg-old/main.c:3409-3483 | before any hook every pending plan is staged and then the cache refreshed, and no staging failed in that run |
| Transaction.StagingFollowsDependencies | tools/syspckg-old/main.c:3419-3455 | when staging goes through, each pending plan is staged exactly once and after its pending dependencies |
| Transaction.HooksFollowDependencies | tools/syspckg-old/main.c:3467-3483 | each pending plan's hook is tried exactly once and after those of its pending dependencies |
| Transaction.HooksFollowTheClosure | tools/syspckg-old/main.c:3198-3483 | every dependency a hook may rely on is installed or had its hook tried earlier |
| DependencyRemoval.PackageDatabase.Remove | tools/syspckg-old/main.c:2430-2446 | succeeds exactly for an installed package that is not the package manager and whose hook works, and takes exactly that one away |
| DependencyRemoval.PackagerIs | tools/syspckg-old/main.c:177-180 | which names are the package manager itself |
| DependencyRemoval.PackageDatabase.RemoveWithDeps | tools/syspckg-old/main.c:2513-2543 | the packages removed are those the depth-first traversal visits before the first that cannot go or lies too deep; it succeeds exactly if there is none; it ends on cycles because the installed set shrinks |
| DependencyRemoval.PackageDatabase.RemoveCommand | tools/syspckg-old/main.c:3127-3151 | all is removed exactly if there is a temporary directory, every reachable package can be read, is not the package manager and has a working hook, and the calls nest at most 65 deep; then exactly the reachable packages are gone; the command succeeds exactly if the linker cache is refreshed as well; otherwise only what the traversal visits before its first failure is gone |
| DependencyRemoval.VisitsAreReachable | tools/syspckg-old/main.c:2513-2543 | the traversal visits exactly the packages reachable through installed ones, and all of its calls work exactly if those can go and the nesting fits |
| DependencyRemoval.LeftIsCleared | tools/syspckg-old/main.c:2533-2539 | nothing that a removed package depends on is left |
| DependencyRemoval.DepthIsNesting | tools/syspckg-old/main.c:2521 | the calls stay within a depth exactly if the removals do not nest deeper |
| DependencyRemoval.ChainIsCleared | tools/syspckg-old/main.c:2513-2543 | along a chain of initially installed packages, none is left |
| Manifest.ManifestMatchesCopy | tools/syspckg-old/main.c:2198-2393 | the F entries are exactly the copied files and links minus core libraries, the D entries exactly the directories |
| Manifest.ControlFilesStayOut | tools/syspckg-old/main.c:2078-2088 | the scripts and metadata at the top of a package, and only there, are neither copied nor listed |
| Manifest.DirectoriesComeLast | tools/syspckg-old/main.c:2310-2393 | every D entry follows everything beneath it |
| Manifest.NamesMeet | tools/syspckg-old/main.c:2224-2247 | entries with different names share no path below them |
| ManifestText.ManifestLines | tools/syspckg-old/main.c:2289-2294 | a written manifest reads, line by line, as its records read one by one |
| ManifestText.ContainsIs | tools/syspckg-old/main.c:2451-2453 | the test for "/../" finds it anywhere in a path |
| ManifestText.ManifestRoundTrip | tools/syspckg-old/main.c:2289-2478 | reading inverts writing exactly if every path is absolute, without CR, LF or "/../" |
| ManifestText.ReadRecordsAreClean | tools/syspckg-old/main.c:2450-2478 | removal only ever acts on clean paths |
| ManifestText.ReadBackMembers | tools/syspckg-old/main.c:2450-2478 | what one record reads back as: its first line and what follows each newline in its path |
| ManifestText.HiddenInRecord | tools/syspckg-old/main.c:2450-2478 | a record reads back as a core library exactly if its path hides one |
| ManifestText.ManifestListsCore | tools/syspckg-old/main.c:2375-2389 | a written manifest lists a core library exactly if some path hides one |
| ManifestText.PlainNamesHideNothing | tools/syspckg-old/main.c:233-238 | a path without CR and LF hides only itself |
| ManifestCuts.ReadMembers | tools/syspckg-old/main.c:2450-2478 | what is read is exactly what the lines of the text parse as, wherever they start |
| ManifestCuts.SomeCutLists | tools/syspckg-old/main.c:2421-2427 | some beginning of a text lists a core library exactly if some line of it begins with one |
| ManifestCuts.CutsListCore | tools/syspckg-old/main.c:2375-2427 | writing that stops at some byte leaves a manifest that lists a core library exactly if a path may hide one |
| ManifestCuts.PlainNamesMayHide | tools/syspckg-old/main.c:233-238 | a path without newlines may hide a core library exactly if it is a file whose path begins with one |
| ManifestCuts.HiddenMayHide | tools/syspckg-old/main.c:2375-2389 | what hides a core library in the whole manifest may hide one in a cut one |
| PackageStore.Store.MakeDir | tools/syspckg-old/main.c:1973-1998 | without a link on the way: success leaves the directory over what was there, failure leaves the tree, and without failing calls it fails exactly if the path is too long or something above it is no directory; through links it adds at most one directory |
| PackageStore.Store.PutLeaf | tools/syspckg-old/main.c:2013-2072 | without a link on the way: success replaces exactly that path, failure touches no other, and without failing calls it succeeds exactly if the temporary name fits, everything above is a directory and the path itself is none; a file that cannot be copied leaves everything as it was; through any links a harmless leaf leaves no listing manifest |
| PackageStore.Store.CopyTree | tools/syspckg-old/main.c:2198-2287 | without links on the way: success overlays the tree with exactly the package's leaves and directories, failure touches no other path, and without failing calls it is copied exactly if all names fit with their temporary endings, no file would replace a directory and no target lies below a file; through any links a harmless package leaves no listing manifest |
| PackageStore.Store.CopyDir | tools/syspckg-old/main.c:2255-2263 | a directory entry: made first, then its children, with nothing else touched and the same condition for success |
| PackageStore.Store.TryRmdir | tools/syspckg-old/main.c:2493-2495 | removes exactly an empty directory other than the root |
| PackageStore.Store.CopyEntry | tools/syspckg-old/main.c:2224-2283 | the same for one entry of any kind |
| PackageStore.Store.OpenManifest | tools/syspckg-old/main.c:2438-2446 | what is read is the text of the manifest, no text exactly without one, and never a listing one while there is none |
| PackageStore.Store.PutManifest | tools/syspckg-old/main.c:2395-2428 | any beginning of the manifest may reach the disk, reported or not; when no call fails it is written in full |
| PackageStore.Store.InstallPackage | tools/syspckg-old/main.c:3436-3455 | through any links a package that hides nothing leaves no listing manifest; it succeeds exactly if the manifest is written and the hook saved, and nothing is unlinked unless the hook is not; without links: the files, and at the manifest's path some beginning of the right text, the whole of it without failing calls, when it is written exactly if the tree can be copied and the manifest put in place; a hook that is not saved takes out again exactly what that manifest lists; any other failure touches only the package's own paths |
| PackageStore.Store.RemovePackage | tools/syspckg-old/main.c:2430-2507 | through any links nothing appears, and no core library is unlinked while no manifest lists one; without links exactly the F paths are unlinked, the D paths swept and the manifest removed; fails only without a manifest or by its hook, which keeps the manifest |
| PackageStore.ListedAreGone | tools/syspckg-old/main.c:2447-2498 | a removal leaves no file it lists, and no manifest if it goes through |
| PackageStore.Store.ReadAndUnlink | tools/syspckg-old/main.c:2447-2479 | the reading loop unlinks every F path, or through links an entry of the same name, and collects every D path |
| PackageStore.Store.SweepDirs | tools/syspckg-old/main.c:2490-2496 | sorted longest first and walked from the end, it removes exactly the listed directories that are empty before the sweep, unless links are on the way |
| PackageTree.SortedIsLongestFirst | tools/syspckg-old/main.c:2296-2308 | the sort keeps the directories and puts longer paths first |
| PackageTree.SweepStep | tools/syspckg-old/main.c:2490-2496 | one more rmdir, shortest first, keeps the closed form of the sweep |
| PackageTree.SweepTurn | tools/syspckg-old/main.c:2490-2496 | one turn of the loop over the sorted directories keeps the closed form of the sweep |
| PackageTree.NamesWritten | tools/syspckg-old/main.c:2013-2072 | a file is first written under a name 19 characters longer, a link under its own |
| PackageRemoval.InstallThenRemove | tools/syspckg-old/main.c:2198-2507 | on fresh paths, install and removal leave every other file as it was, plus the unlisted core libraries; the manifest is gone, too |
| PackageRemoval.InstallUnsaved | tools/syspckg-old/main.c:3449-3455 | on fresh paths, an install that fails because the remove hook cannot be saved leaves every file as it was, plus the unlisted core libraries |
| PackageRemoval.LeftoverDirectories | tools/syspckg-old/main.c:2490-2496 | a new directory stays behind exactly if a directory of the package or of the database, a core library or the manifest itself lies below it |
| PackageExamples.NestedDirectoryStays | tools/syspckg-old/main.c:2490-2496 | a package with one nested directory leaves the outer one |
| PackageTree.NoDirIsALeaf | tools/syspckg-old/main.c:2198-2287 | in a valid tree no copied directory is also a copied file |
| PackageTree.NothingBelowALeaf | tools/syspckg-old/main.c:2198-2287 | in a valid tree no target lies below a copied file |
| PackageExamples.CoreLibraryCanBeListed | tools/syspckg-old/main.c:2375-2389 | a file name with a carriage return makes the manifest list a core library |
| PackageExamples.CutManifestCanList | tools/syspckg-old/main.c:2421-2427 | a file name that only begins like a core library is harmless in the whole manifest and lists the library in a cut one |
| PackageExamples.PayloadCanList | tools/syspckg-old/main.c:2224-2283 | a package that brings a manifest of another one: its own manifest hides nothing, but removing the other one unlinks the C library |
| PackageStore.Store.RunAll | tools/syspckg-old/main.c:3419-3477 | for every sequence of installs, removals and updates, whatever fails: each does to the tree what it should, no manifest comes to list a core library, and none is unlinked |
| PackageStore.InstallsListNothing | tools/syspckg-old/main.c:3436-3455 | an install that stops before the manifest, or anywhere in it, leaves no listing manifest exactly if the package hides nothing |
| PackageStore.LastNameDecides | tools/syspckg-old/main.c:2438-2457 | through linked directories the last name stays, and it decides what may be a manifest and what is a core library |
| PackageStore.NoCoreUnlinked | tools/syspckg-old/main.c:2447-2479 | reading a text that lists no core library unlinks none, wherever links lead |
| UsrMerge.FileSystem.CreateDirectories | tools/syspckg/main.cpp:1450-1455 | without links it fails exactly if something on the way is no directory, and otherwise adds exactly the missing directories; through links it removes nothing |
| UsrMerge.FileSystem.MakeWay | tools/syspckg/main.cpp:1450-1455 | the same loop over the parts of a path, a link counting as no directory |
| UsrMerge.FileSystem.Merge | tools/syspckg/main.cpp:1440-1521 | nothing outside the source is removed; where directories meet only links back to themselves, it fails exactly if the way is blocked or a directory meets a file; on success the source is gone, destination entries win, the rest has moved, in any listing order; entries are kept unless hidden, and hidden ones are gone on success |
| UsrMerge.FileSystem.MergeLeaf | tools/syspckg/main.cpp:1470-1521 | on a way without links a leaf is dropped if its destination exists and else moved, by rename or by copy |
| UsrMerge.FileSystem.MergeOntoItself | tools/syspckg/main.cpp:1440-1478 | where the destination is another name of the source, everything below it is removed and nothing else |
| UsrMerge.FileSystem.EnsureUsrMergeLink | tools/syspckg/main.cpp:1523-1561 | where only links back are met, it succeeds exactly if the link is possible, then the link stands, and every entry is kept unless hidden; if /usr is the root or the directory in it leads back, the legacy directory is deleted and it fails; a link that stands is left alone |
| UsrMerge.FileSystem.EnsureUsrMergeLinkTwice | tools/syspckg/main.cpp:1523-1561 | after a first run that succeeds, a second run succeeds and changes nothing |
| UsrMerge.FileSystem.PrepareUsrMerge | tools/syspckg/main.cpp:1563-1572 | nothing outside the four directories is removed, and a ready layout is left alone; where only links back are met, it succeeds exactly if all four links are possible in the tree it starts from, and of each directory exactly the hidden entries are lost, if its turn comes; if /usr is the root, the first directory that is no link yet is deleted |
| TreeMerge.MergeStep | tools/syspckg/main.cpp:1457-1459 | merging one more child keeps the closed form of a half-done merge |
| TreeMerge.ChildIsBlockedAlike | tools/syspckg/main.cpp:1457-1459 | what is merged already neither blocks nor unblocks the next child |
| UsrMerge.StillPossible | tools/syspckg/main.cpp:1563-1572 | the links made so far neither help nor hinder the next one |
| TreeMerge.BrokenMergeFares | tools/syspckg/main.cpp:1457-1459 | a merge broken off inside one child has lost no entry that is not hidden |
| TreeMerge.BackMerged | tools/syspckg/main.cpp:1450-1478 | a merge into a link that leads back is a merge in which every entry is hidden, and it is never blocked |
| TreeMerge.MergeFares | tools/syspckg/main.cpp:1440-1521 | after a whole merge an entry is kept exactly if it is not hidden |
| UsrMerge.LayoutStep | tools/syspckg/main.cpp:1563-1572 | one more link affects its own directory only, and what becomes of each directory is decided |
| UsrMerge.PlainAlike | tools/syspckg/main.cpp:1563-1572 | the links made so far put no other link in the way of the next directory |
| UsrLinks.ContentIsKept | tools/syspckg/main.cpp:1470-1561 | after a link is made, a legacy file or what it has yielded to can be read in /usr exactly unless a link back hid it or it yielded to a directory |
| UsrLinks.BackLeadsNowhere | tools/syspckg/main.cpp:1523-1561 | once the legacy directory is a link, a link back leads in a circle, however many links are followed |
| UsrLinks.PrepareAndRead | tools/syspckg/main.cpp:1563-1572 | the same from the tree before the preparation to what can be read after it |
| UsrLinks.ReadyMeansLinks | tools/syspckg/main.cpp:1563-1576 | the layout is ready exactly if the four legacy entries are relative links into /usr |
| UsrLinks.LegacyLeadsToUsr | tools/syspckg/main.cpp:1563-1576 | then every legacy path leads where the same path below /usr does |
| UsrLinks.HomeIsTheLegacyEntry | tools/syspckg/main.cpp:1523-1561 | where /usr is a link to the root, its entry is the legacy entry itself |
| UsrLinks.MovedLinkLeadsElsewhere | tools/syspckg/main.cpp:1487-1502 | a moved link keeps its text, so one that begins with .. leads to another place |
| UsrLinks.LibcIsHidden | tools/syspckg/main.cpp:1470-1478 | a tree whose preparation succeeds and hides the C library behind a link to itself |
| UsrLinks.ModulesAreHidden | tools/syspckg/main.cpp:1450-1459 | the same for the files of a directory |
| UsrLinks.LibIsHidden | tools/syspckg/main.cpp:1523-1572 | /usr/lib is a link to ../lib: the preparation reaches it, and the C library is hidden |
| UsrLinks.BinIsHidden | tools/syspckg/main.cpp:1523-1572 | /usr is a link to the root: the preparation deletes /bin |
| Bootstrap.PackageManager.RemoveBackup | tools/syspckg/main.cpp:1627-1630 | only the backup is touched, and any part of it may survive an error |
| Bootstrap.PackageManager.BackupOne | tools/syspckg/main.cpp:1637-1660 | a copied core file stands in the backup; with working copies it fails only for a directory |
| Bootstrap.PackageManager.BackupCoreFiles | tools/syspckg/main.cpp:1626-1663 | success means every core file stands in the backup; with working copies it succeeds exactly if the tree allows it |
| Bootstrap.PackageManager.RestoreOne | tools/syspckg/main.cpp:1669-1688 | a restored file has its backup's content; without a backup it is left alone; where its copy does not fail it warns only if obstructed |
| Bootstrap.PackageManager.RestoreCoreFiles | tools/syspckg/main.cpp:1665-1691 | every saved core file it does not warn about is back, it warns only of failed copies and obstructed files, and the state directory is untouched |
| Bootstrap.PackageManager.Finalize | tools/syspckg/main.cpp:1746-1819 | the marker appears, with its text, exactly if everything before it worked, with the core files restored first |
| Bootstrap.PackageManager.Prepare | tools/syspckg/main.cpp:1956-1962 | backup and usr-merge, in this order, keep every core file and make no marker; without a throw the layout is ready; where only links back are met, the usr-merge throws exactly if the layout is impossible |
| Bootstrap.PackageManager.Transact | tools/syspckg/main.cpp:1966-2085 | which steps are done and when it throws; on a return the core files stand, the macro is balanced and the code is 0 or 3 as everything went; on a throw at most the one push is open |
| Bootstrap.PackageManager.Conclude | tools/syspckg/main.cpp:2057-2085 | after the transaction the core files are restored; code 3 if it failed, 0 if finalising works, which sets the marker, and else a throw |
| Bootstrap.PackageManager.TransactAndRecover | tools/syspckg/main.cpp:1964-2109 | with the handler: core files kept, macro balanced, flags restored unless a download failed, code 0 exactly if all goes well and else 3, marker exactly on code 0, and outside bootstrap mode nothing changed unless everything was fetched |
| Bootstrap.PackageManager.RestoreFlags | tools/syspckg/main.cpp:1594-1598 | the flags are the original ones again |
| Bootstrap.FlagsAreSet | tools/syspckg/main.cpp:1578-1598 | a list that begins with an empty item replaces the flags, any other is appended |
| Bootstrap.PackageManager.RunGoal | tools/syspckg/main.cpp:1882-2109 | for every outcome: nothing changes if the goal is not resolved, fatal, empty or declined; fatal problems give 2, nothing to do and a declined transaction 0, past the question 0 exactly if all goes well and else 3; core files kept except those whose copy back failed or that are obstructed at the end, macro balanced, marker exactly after a completed transaction, exactly which exits leave the bootstrap flags set, and which steps are done |
| Bootstrap.PackageManager.RunAll | tools/syspckg/main.cpp:1882-2109 | over any sequence of bootstrap runs: each is such a run, none follows the one that sets the marker, each core file lost from the first tree was obstructed or failed to copy in some run, the macro is balanced, and the flags at the end are the first ones exactly unless some run left the bootstrap ones |
| Bootstrap.TransactionRuns | tools/syspckg/main.cpp:1882-2054 | a transaction runs exactly if the goal is resolved and confirmed, no preparation throws, everything is fetched and the macro, where it is needed, is overridden |
| Bootstrap.TransactionIsWrapped | tools/syspckg/main.cpp:1889-2085 | it runs once; in bootstrap mode the goal was resolved under the bootstrap flags, then come backup, usr-merge and download, the macro is overridden once, and the core files are restored next |
| Bootstrap.MarkingIsLast | tools/syspckg/main.cpp:1808-1819 | the marker is set as the last step, exactly in a bootstrap run in which everything went well |
| Bootstrap.NothingIsLost | tools/syspckg/main.cpp:1665-1691 | if no copy back fails and no run ends with an obstruction, every core file of the first tree stands at the end |
| Bootstrap.FlagsAfterFailedDownload | tools/syspckg/main.cpp:2032-2041 | after a failed download the bootstrap flags are still set, whatever they were before |
| Bootstrap.SameLayout | tools/syspckg/main.cpp:1956-1962 | the backup does not affect whether the layout is possible, nor which links are met |
| Devices.ScannedHasNoP | tools/installer/helpers.c:51-61 | what %u reads holds no letter p |
| Devices.DiskIs | tools/installer/helpers.c:30-64 | the names of supported disks as a grammar, with the numbers sscanf reads |
| Devices.MediaIs | tools/installer/helpers.c:66-87 | media is such a disk or an optical drive with a number of at most two characters |
| Devices.DiskShape | tools/installer/helpers.c:30-64 | a supported disk is numbered and without p, or ends in a letter |
| Devices.BelongsToDisk | tools/installer/helpers.c:89-120 | true exactly if the partition is the disk's name, the infix and a number |
| Devices.ComputeParentDisk | tools/installer/install.c:205-225 | the editing of the buffer computes the parent for every buffer size |
| Devices.ParentIsTheDisk | tools/installer/install.c:205-225 | a partition leads back to its disk in a buffer of any size, exactly unless the cut hits the disk name or falls right behind the infix |
| Devices.WholeDiskIsItsOwnParent | tools/installer/install.c:205-225 | a whole disk is unchanged exactly if its name fits |
| Devices.OneDisk | tools/installer/helpers.c:89-120 | no partition belongs to two disks |
| Devices.PartitionIsNoDisk | tools/installer/helpers.c:30-120 | no partition is itself a supported disk |
| Devices.PartitionPathBelongs | tools/installer/helpers.c:133-152 | a partition path belongs to its disk |
| Devices.PartitionPathIsExact | tools/installer/helpers.c:133-152 | the path is exactly the disk, the infix and the numeral of the number; there is none exactly if the number is not positive or the path does not fit |
| Devices.PartitionPathIsInjective | tools/installer/helpers.c:133-152 | partition paths differ in disk or number |
| Devices.LongNamesLeadBack | tools/installer/install.c:716-723 | the check against the media's disk works for names cut to the buffer, too |
| MountTable.MountDevAt | tools/installer/install.c:128-150 | the loop over the format finds the source of the first entry it reads for the mount point, cut to the buffer, or nothing exactly if it reads none |
| MountTable.ScanLine | tools/installer/install.c:141 | one call reads exactly one line whose fields fit |
| MountTable.TableIsReadBack | tools/installer/install.c:141 | a table is read as it was written exactly if every source and mount point fits 127 characters |
| MountTable.FirstIsRead | tools/installer/install.c:141-147 | what is mounted at a point is found if every line up to its own fits, whatever follows |
| MountTable.LongPointHidesRoot | tools/installer/install.c:141-147 | a longer mount point before the line of the root makes the reader miss the root |
| InstallerRun.MountPartitionOf | tools/installer/install.c:169-203 | what is mounted is the first listed partition of the chosen disk that can be, and nothing only if none can |
| InstallerRun.DetectMedia | tools/installer/install.c:390-458 | a selected device is never replaced by another one than the first of its partitions that serves; without a selection, what is mounted in place wins over the environment, and that over the first scanned device that serves |
| InstallerRun.FoundIsUnique | tools/installer/install.c:390-458 | the host and what fails decide the media |
| InstallerRun.FoundInACalmRun | tools/installer/install.c:390-458 | where nothing fails, a selected disk gives its first listed partition, a device mounted in place is taken, and media is found if there is a candidate |
| InstallerRun.GuardKeepsApart | tools/installer/install.c:716-730 | passing the parent check means the disk is neither that device nor the disk holding it |
| InstallerRun.EveryStepStaysOn | tools/installer/install.c:679-842 | every step of the script acts on the chosen disk or its partitions |
| InstallerRun.EfiIsNotRoot | tools/installer/install.c:683-688 | the EFI and root partitions differ |
| InstallerRun.ScriptContains | tools/installer/install.c:732-1052 | which steps a finished run has done, for each action and boot mode |
| InstallerRun.FormatsFollowPartitioning | tools/installer/install.c:796-861 | nothing is erased before the disk is partitioned, once, nothing formatted before its partitions appear, nothing mounted for an install before it is formatted, and updates contain no such step |
| InstallerRun.AccountsFollowTheRoot | tools/installer/install.c:855-1052 | the root is extracted once it is mounted, accounts are written into it after that, and the boot loader follows its configuration |
| InstallerRun.ScriptIsSafe | tools/installer/install.c:663-853 | every beginning of a script stays on the disk, keeps EFI and root apart and erases nothing in an update |
| InstallerRun.Installer.Erase | tools/installer/install.c:788-841 | partitioning and formatting, up to the first step that fails; a first attempt to format the root may be repeated |
| InstallerRun.Installer.Rest | tools/installer/install.c:732-1052 | the steps of the script, up to the first that fails |
| InstallerRun.Installer.SetUp | tools/installer/install.c:855-988 | the system is put on the root partition, up to the first step that fails |
| InstallerRun.Installer.InstallLoader | tools/installer/install.c:990-1034 | the boot loader of the chosen mode |
| InstallerRun.Installer.Run | tools/installer/install.c:663-1052 | whatever fails: no step unless the disk is supported and apart from the mounted media and from the first root in the table as it is read; refused exactly if the checks refuse; otherwise the steps begun are those of the script up to the first that fails, and it ends well exactly if none does |
| InstallerRun.CalmRunFinishes | tools/installer/install.c:663-1052 | where nothing fails and the checks do not refuse, the whole script for these settings is run |
| LineFiles.ChunksAreLines | tools/installer/install.c:488-503 | reading through a buffer yields exactly the lines if they fit |
| AccountFiles.UpsertedLines | tools/installer/install.c:460-532 | on a newline-terminated file the new lines are the others in order and then the record |
| AccountFiles.UpsertIsExact | tools/installer/install.c:460-532 | exactly one record for the name, every other name's records unchanged, and a second upsert changes nothing |
| AccountFiles.UpsertNeedsFinalNewline | tools/installer/install.c:488-503 | the record can be found afterwards exactly if the file ended in a newline or in a record for the name |
| AccountFiles.UpsertFits | tools/installer/install.c:488-503 | after an upsert the file is terminated and its lines fit, if the record fits behind an unterminated last line |
| AccountFiles.AccountsFoundAgain | tools/installer/install.c:568-602 | both upserts on a file that need not be terminated: the user's record is found, root's exactly if the file ended in a newline or in a record of root |
| AccountFiles.Disk.UpsertColonRecord | tools/installer/install.c:460-532 | succeeds exactly for a proper name if no step fails; then the upserted content is in place; any failure leaves the file as it was and no temporary one behind |
| AccountFiles.Disk.UpsertPair | tools/installer/install.c:568-602 | root before the user, up to the first that fails |
| AccountFiles.Disk.WriteUserFiles | tools/installer/install.c:534-602 | the six upserts in order up to the first that fails; success exactly if none does |
| AccountFiles.FilesAreWhole | tools/installer/install.c:568-602 | however the upserts end, each file is old, has root's new record or both, never anything between |
| AccountFiles.BothAccountsWritten | tools/installer/install.c:568-602 | root and the user end with exactly their new records and every other account with its own |
| AccountFiles.ValidUsernameIs | tools/installer/helpers.c:12-28 | which user names are valid, by the codes of their characters |
| AccountFiles.HashesStayInShadow | tools/installer/install.c:568-602 | the hash of a password stands behind the name in the shadow file, and the other two files do not depend on it |
| AccountFiles.IdsOfAccounts | tools/installer/install.c:568-602 | root has user and group 0, the user 1000 |
| Wizard.FoundMembers | tools/installer/sys.c:174-228 | a scan finds only devices of the right kind, and all of them unless its list is full |
| Wizard.TargetsMembers | tools/installer/ui.c:752-762 | a target is offered exactly if it was found and is available |
| Wizard.StepsInvert | tools/installer/ui.c:519-611 | along an action's path Esc undoes a step forward and the other way round |
| Wizard.PhraseIs | tools/installer/ui.c:268-302 | which phrase confirms: ERASE or UPDATE and the disk's name, with what happens to names that leave no room |
| Wizard.ChoosingIsSound | tools/installer/ui.c:690-785 | the pages up to the disk keep everything asked so far in order |
| Wizard.ChoosingDevicesIsSound | tools/installer/ui.c:710-785 | whatever the two scans find, the media and the target chosen are apart and supported |
| Wizard.SettingIsSound | tools/installer/ui.c:787-830 | so do boot mode, ACPI, size and hostname |
| Wizard.NamingIsSound | tools/installer/ui.c:832-861 | so do username and passwords, with edits abandoned by Esc |
| Wizard.ConfirmingIsSound | tools/installer/ui.c:863-876 | so do phrase and summary |
| Wizard.AcceptedIsGood | tools/installer/ui.c:654-879 | for every sequence of answers an accepted draft has a supported disk other than the media, the phrase for this disk and action, and for an install a valid user, repeated passwords and a hostname |
| WizardKeys.EditedIsTypeable | tools/installer/ui.c:258-263 | typing keeps a text printable, within its buffer and within 58 characters |
| WizardKeys.PrintableByCode | tools/installer/ui.c:261 | which characters a text box takes |
| WizardKeys.ExplainedIsTypeable | tools/installer/ui.c:224-302 | so are all texts of the draft, for every sequence of keys |
| WizardKeys.PhraseWasTyped | tools/installer/ui.c:863-876 | before an acceptance the phrase was given as an answer |
| WizardKeys.AcceptedPhraseWasEntered | tools/installer/ui.c:268-302 | the accepted phrase was typed into an empty box and confirmed with Enter |
| WizardRuns.KeysDecide | tools/installer/ui.c:654-879 | two explanations of the same keys, with the same scans, agree answer by answer and key by key |
| WizardRuns.EndedRunIsTheOnlyOne | tools/installer/ui.c:654-879 | a run that ends is the only one its keys and scans explain |
| WizardRuns.WaitingHasNoAnswer | tools/installer/ui.c:166-302 | where the page waits for more keys, its next answer has not been read |
| WizardRuns.ProgramAgrees | tools/installer/ui.c:654-879 | if some explanation of the keys and scans has ended, the program has ended with the same answers |
| WizardReach.BoxReads | tools/installer/ui.c:224-266 | for every text that fits a box there are keys that enter it, whatever the box shows |
| WizardReach.MenuReads | tools/installer/ui.c:188-222 | for every entry of a menu there are keys that pick it |
| WizardReach.FromAction | tools/installer/ui.c:699-879 | from the choice of an action, any wish can be reached whose unasked texts are there already |
| WizardReach.Detour | tools/installer/ui.c:519-611 | any texts can be left behind on the pages of an install and then abandoned with Esc |
| WizardReach.SettingsAreWishes | tools/installer/ui.c:654-879 | for all settings: some keys make the wizard return them exactly if disk and media are supported and differ, the texts and the phrase can be typed, and for an install the accounts and the hostname are proper |
| WizardScreens.Screen.MessageBox | tools/installer/ui.c:166-186 | waits for Enter or Esc and tells which |
| WizardScreens.Screen.MenuBox | tools/installer/ui.c:188-222 | returns the entry under the cursor as the keys moved it, always within the menu, or -1 after Esc |
| WizardScreens.Screen.InputBox | tools/installer/ui.c:224-266 | the text is what the keys before Enter or Esc make of the text shown |
| WizardScreens.Screen.PasswordBoxes | tools/installer/ui.c:499-511 | both texts are what the keys typed into two empty boxes |
| WizardScreens.Screen.AskWelcome | tools/installer/ui.c:690-697 | goes on with Enter, quits with Esc |
| WizardScreens.Screen.AskAction | tools/installer/ui.c:699-708 | the action page follows the machine, on keys that explain the answer |
| WizardScreens.Screen.AskSwitch | tools/installer/ui.c:787-807 | so do the boot mode and ACPI pages |
| WizardScreens.Screen.AskPartSize | tools/installer/ui.c:809-819 | so does the size page, keeping edits abandoned with Esc |
| WizardScreens.Screen.AskHostname | tools/installer/ui.c:821-830 | so does the hostname page, with its default for an empty name |
| WizardScreens.Screen.AskUser | tools/installer/ui.c:832-842 | so does the user page, which stays on an invalid name |
| WizardScreens.Screen.AskSummary | tools/installer/ui.c:871-876 | accepts with Enter, goes back with Esc |
| WizardScreens.Screen.AskPassword | tools/installer/ui.c:499-517 | rounds of two boxes, each recorded as an answer the keys explain |
| WizardScreens.Screen.AskPhrase | tools/installer/ui.c:268-302 | rounds of the confirmation box, each recorded as an answer the keys explain |
| WizardScreens.Screen.AskMedia | tools/installer/ui.c:710-742 | the media page follows the machine; a target that is now the media is dropped |
| WizardScreens.Screen.FilterTargets | tools/installer/ui.c:752-762 | the loop leaves exactly the available disks, in order |
| WizardScreens.Screen.AskDisk | tools/installer/ui.c:744-785 | the disk page follows the machine |
| WizardScreens.Screen.CollectConfig | tools/installer/ui.c:654-879 | for every sequence of keys: acceptance means the machine accepted, on answers the keys explain, and the draft is good; otherwise it has quit, or all keys are used up and the page it shows waits for more |
| WizardScreens.MediaIsApart | tools/installer/install.c:709-730 | if the target is apart from what was mounted, it is apart from the chosen media |
| WizardScreens.StepsAreMeant | tools/installer/install.c:682-1052 | a run takes no step its settings do not call for: EFI steps only for UEFI, a boot sector only for BIOS, mounting and accounts never for formatting only, an update only for an update |
| WizardScreens.Screen.Run | tools/installer/ui.c:901-929 | from keys to disk: code 0 exactly if the wizard accepts, and then the run is the one for the accepted media, disk, action and boot mode; otherwise nothing is done; no step that the settings do not call for; nothing is erased unless ERASE and this disk's name were typed, the disk is apart from the chosen media, and every erasing step stays on it |

## Left out

- Allocation failures and signals are not modelled anywhere.
- Integers: strtol's bound is modelled (64-bit `long`); other counters are unbounded.
- Fixed buffers are modelled where a result depends on them (device names, phrases, text boxes, lines, manifest paths); elsewhere text is unbounded.
- Characters stand for bytes; device and file names contain no NUL.
- Versions: the token texts of remote listings are given as a list; fetching and scanning the HTML is not part of this model.
- Pickers: resolve_latest_remote, which runs the same loop over remote names, and the three callers for system, kernel and packager updates would only repeat these results.
- PlanQueue.CollectPlans: reading metadata from archives is a lookup in a given world of packages.
- Transaction: what hooks do is unknown; they are assumed not to touch the files that a result speaks about. What the boot configuration after a kernel update writes is left out.
- DependencyRemoval.PackageDatabase.RemoveWithDeps: the metadata of archives does not change while the command runs.
- PackageStore: file modes, ownership and contents of links beyond their target are left out; so are the saved hooks, whose files are no manifests.
- PackageStore.Store.MakeDir: behind a linked directory only the last name of what is made is known, not the place; the same holds for PutLeaf, CopyTree, CopyDir, CopyEntry, RemovePackage, ReadAndUnlink and SweepDirs.
- PackageStore.Store.PutLeaf: as for MakeDir, the place behind a linked directory is arbitrary.
- PackageStore.Store.CopyTree: as for MakeDir; the install root exists; the lengths of the paths inside the unpacked archive are not modelled.
- PackageStore.Store.CopyDir: as for MakeDir, the place behind a linked directory is arbitrary.
- PackageStore.Store.CopyEntry: as for MakeDir, the place behind a linked directory is arbitrary.
- UsrMerge: I/O errors other than a blocked way are left out.
- UsrMerge.FileSystem.MakeWay: a link counts as no directory; CreateDirectories says what holds with links.
- UsrMerge.FileSystem.Merge: where a directory meets a link that is not spelled as one back to it ("/src", or as many ".." as lead to the root and then the path), the entries may end anywhere but in the package manager's own directory, and only what lies outside the source is promised. After a failure that is no matter of links, hidden entries may be gone or not, as the listing order has it.
- UsrMerge.FileSystem.EnsureUsrMergeLink: the same for such links, and for a /usr that is a link elsewhere than to the root.
- UsrMerge.FileSystem.PrepareUsrMerge: the same for such links.
- Bootstrap: the transaction may change anything outside /var/lib/syspckg; the commands after it leave /etc's core files alone. Exceptions that are not std::exception are left out.
- Bootstrap.PackageManager.BackupOne: a core file that is a link to a file counts as the file it reads as, so a link in the tree stands for one that leads nowhere and is skipped, as in the source; two core files that share a target are not modelled.
- Bootstrap.PackageManager.RestoreOne: the same for links: what is written through a link counts as what the core file reads as; a linked /etc counts as obstructed.
- Bootstrap.PackageManager.RestoreCoreFiles: the same for links.
- Bootstrap.PackageManager.BackupCoreFiles: the same for links, and a link on the way to the state directory counts as blocking it; when removal of the old backup or a copy fails, only safety is stated, not when exactly it fails.
- Bootstrap.PackageManager.RestoreFlags: libdnf's append option is taken to replace its list when the first value is empty.
- Devices: names are compared as text; other paths to the same device are not resolved.
- MountTable.TableIsReadBack: the last two fields of every line are zero and no field is empty, as the kernel writes them.
- InstallerRun: the steps stand for groups of commands; command strings, GRUB and fdisk scripts, the packages fetched, unmounting and log output are left out.
- AccountFiles.AccountsFoundAgain: says nothing about a record that does not fit the line buffer behind an unterminated last line.
- AccountFiles: hashing, securetty, hostname and hosts files are left out.
- Wizard: drawing, colours, progress and labels are left out; the names a scan meets are arbitrary each time.
- libdnf5, RPM, repository loading, downloads, GPG, wget, tar, mount and ldconfig are foreign code: steps with an arbitrary outcome.
