# jartool search core, modelled in Dafny

`jartool` searches a directory tree for Java artefacts. It has these modes:

- an exact or substring class query over the `.class` entries of every JAR;
- a package query over JARs;
- a regular-expression content search inside JARs;
- a "master" mode. It sorts every non-excluded file by extension and
  searches each bucket its own way: JARs entry by entry, ZIP-family
  archives as text, Java sources line by line, and every other file line by
  line. If a read error comes before any line has matched, it falls back to
  a `strings`-style scan of the file's bytes.

Every match passes through `add_result`. In mini mode, `add_result` keeps
only the first match per location. The tool also keeps running statistics.

This project models that core as pure functions over immutable values.
For each search mode it proves which matches a phase reports and that the
tool ends as `add_result` folded over them: every match counted in
`matches_found`, and stored in order in normal mode or once per location in
mini mode. It also proves which files are processed and what the entry
totals become. For the class and package queries the reported matches are
characterised entry by entry; for content matches the model states where
they are located and which entries and lines are searched.

Modules, in dependency order:

- `Wrappers`: `Option` and `Result`.
- `Picks`: what it means for a single-pass filter to keep order. The
  results are listed at the ascending positions of the kept elements.
- `Model`: the data. It has the result record, the statistics, the
  configuration and the tool state. It also has the file-system inputs,
  given as values: walked files, archive entries, lines read with possible
  read errors, and raw bytes.
- `Text`: string helpers. These are prefix/suffix/substring tests,
  character replacement, whitespace trimming, ASCII lower-casing, and the
  text after the last dot.
- `BinaryStrings`: the printable-run extractor. There is a reference
  definition (the qualifying maximal runs in buffer order). The
  byte-at-a-time state machine of the source is proved to compute it.
- `LineScan`: the line-by-line search, and master mode's scan with its
  stop-at-first-error and binary fallback.
- `Names`: class-name derivation and the exact, substring and package
  matching of entry names.
- `FileTypes`: the `match_type` labels and master mode's extension buckets.
- `Gating`: the exclusion test, the size gate and the archive finder.
- `Aggregate`: `add_result` and its fold over a sequence of matches.
- `ArchiveScan`: searching the entries of one opened archive. It routes
  each entry by kind and keeps the entry counters.
- `Search`: one unit of work per file and the search modes.

A regular expression is a predicate `Pattern = string -> bool`. An invalid
pattern is `None`. The parallel `par_iter` loops are modelled as sequential
folds in walk order. The counters do not depend on that order. The order of
results under parallelism, and in mini mode which match comes first at a
location, are not modelled.

Where the behaviour of the code differs from its documentation, the model
follows the code:

- The package query prefixes the entry name with the package path and no
  trailing `/`. So package `com.foo` also matches `com/foobar/X.class`.
  `Names.PackagePrefixWithoutSeparator` states this.
- An exact class query containing a dot is meant to match only that exact
  dotted name. The code also accepts any name ending in `.` followed by the
  query, so `com.foo.Bar` matches `org.com.foo.Bar` too.
  `Names.ExactMatchExamples` states this.
- Master mode buckets files by their extension exactly as written, so
  `A.JAR` is an "other" file there. `get_file_type` and the archive finder
  lower-case the extension instead. `FileTypes.CaseSensitivityExamples`
  states this.
- `get_archive_file_type` splits the whole entry name, not its last path
  segment. A dot in a directory name therefore leaks into the type:
  `conf.d/README` is typed `d/README`. Splitting always yields a last piece,
  so its `unknown` branch is unreachable.
- In master mode the JAR phase adds its entry counters to
  `total_class_files`, `total_java_files` and `total_other_files`. The last
  two were just set to the number of Java sources and loose files, so in
  master mode they count two different things at once.
  `Search.MasterSearchCounts` states the resulting totals, and
  `Search.MasterCountsJarEntriesAsFiles` shows one JAR holding `A.java`
  giving a Java total of 1 with no Java source walked.

## Model

| member | source | states |
|---|---|---|
| BinaryStrings.ExtractStrings | main.rs:294-335 | The byte loop of the binary search reports exactly the reference list `Extracted`. A printable byte extends the current string, a non-printable byte closes it, and a string still open at the end is checked the same way. |
| BinaryStrings.RunsAreExactlyMaximalRuns | main.rs:302-320 | The runs the extractor walks through are maximal runs of printable bytes (ASCII graphic, space or tab), in increasing separated order. Every maximal run is among them. |
| BinaryStrings.ExtractedAreQualifyingRuns | main.rs:307-330 | A string is reported if and only if it is the text of a maximal printable run of at least four characters that the pattern accepts. |
| BinaryStrings.ExtractedSelectsRuns | main.rs:302-330 | The reported strings are the qualifying runs taken in buffer order. |
| BinaryStrings.ExtractedExamples | main.rs:307-331 | A four-letter run between control bytes is reported. A three-letter run is not. |
| BinaryStrings.BinaryResults | main.rs:651-690 | A binary search gives one result per extracted string, in order, at the given location, with no line number and the given type. A failed read reports nothing. |
| Names.ClassName | main.rs:462-469 | The class name of an entry has the length of the entry minus its `.class` suffix and contains no `/`. Each position holds the entry's character there, with `/` turned into `.`. |
| Names.ClassNameRoundTrip | main.rs:462-469 | For a `.class` entry whose stem has no dot, turning the dots of the class name back into `/` and appending `.class` gives the entry back. |
| Names.ExactMatchIsLastComponent | main.rs:470-471 | For a query without a dot, the exact class match holds if and only if the query is the last dot-separated component of the class name. |
| Names.ExactImpliesSubstring | main.rs:470-474 | Every exact match is also a substring match. |
| Names.ExactMatchExamples | main.rs:470-471 | `Bar` matches `com.foo.Bar` and `Bar`. It matches neither `FooBar` nor `com.fooBar`. The dotted query `com.foo.Bar` also matches `org.com.foo.Bar`. |
| Names.PackagePath | main.rs:166 | The package path has the package's length and no dot. Each dot becomes `/` and every other character stays. |
| Names.PackageMatchByClassName | main.rs:508-518 | For a package without `/` and a dot-free stem, an entry is reported if and only if it is a `.class` entry whose class name starts with the package name. |
| Names.PackagePrefixWithoutSeparator | main.rs:166-167 | Package `com.foo` becomes path `com/foo`. That path also matches `com/foobar/X.class`, because no separator is required after the prefix. |
| Text.ReplaceRoundTrip | main.rs:166 | Replacing `.` by `/` and back restores a name that had no `/`. |
| Text.Trim | main.rs:621-623 | The trimmed line has no surrounding whitespace. It is the line with its leading and trailing whitespace removed, and nothing else. |
| Text.TrimIdempotent | main.rs:621-623 | Trimming a trimmed line changes nothing. |
| Aggregate.AddResult | main.rs:98-123 | `add_result` always counts the match. In normal mode it appends the result. In mini mode, the first result at a location is stored in reduced form and its location remembered. A later result at that location stores nothing. The configuration never changes. |
| Aggregate.AddAllCounts | main.rs:98-123 | `Aggregate.AddAll`, the fold of `add_result` over a unit's matches: folding `add_result` over matches counts each one and leaves every other statistic and the configuration unchanged. |
| Aggregate.NormalModeKeepsAll | main.rs:117-121 | In normal mode every match is stored unchanged and in order. |
| Aggregate.AddAllKeepsMiniInv | main.rs:99-116 | In mini mode the fold keeps results reduced and one per location. The seen-set equals the stored locations and grows by exactly the folded locations. |
| Aggregate.MiniModeCounts | main.rs:98-123 | From a fresh mini-mode tool there is one stored result per distinct location, never more results than matches, and every match is counted. |
| Aggregate.AddAllAppend | main.rs:98-123 | Folding `add_result` over two runs of matches one after the other is folding it over their concatenation. |
| Aggregate.AddAllIgnoresStats | main.rs:98-123 | What `add_result` stores and which locations it has seen depend on the configuration and the earlier results only, never on the statistics. |
| Aggregate.MiniModeKeepsFirst | main.rs:102-113 | In mini mode every stored result stands for the first match at its location and carries that match's type. |
| LineScan.ScanReportsMatchingLines | main.rs:609-649 | `LineScan.Scan`, the line search of `search_content_in_file`, reports exactly the matching lines, each once, in ascending line order. Each has its 1-based number, its trimmed text, the file location and the file type. Unreadable lines are skipped but still numbered. |
| LineScan.ScanWithFallback | main.rs:243-290 | The master-mode loop over lines equals `LineScan.MasterFileScan`, the scan of `search_content_in_all_files`. It matches lines until the first read error. At that error it falls back to the binary strings only when no line has matched, and then stops. |
| LineScan.MasterScanFallback | main.rs:254-290 | If a line before the first read error matches, every result is a matching line from before that error. If no line before an error matches, the results are exactly the file's binary strings, typed `<type>_binary`. |
| LineScan.MasterScanWithoutErrors | main.rs:243-290 | On a file that reads cleanly, master mode's scan is the plain line search. |
| LineScan.FirstErrorFrom | main.rs:259-282 | The stop index is the first read error, or the end when there is none. Every line before it was read. |
| FileTypes.GetFileType | main.rs:755-778 | A loose file's type is `no_extension` without an extension. Otherwise it is the label of the lower-cased extension, or that extension itself when it has no label. |
| FileTypes.FileTypeIgnoresCase | main.rs:755-778 | The type of an extension equals the type of its lower-cased form. |
| FileTypes.CategoryAgreesWithLabel | main.rs:366-383 | `FileTypes.Classify`, master mode's bucketing by extension, and the labels agree. Master mode's buckets and the labels agree on lower-case extensions. Configuration, script, XML and text buckets get labels of their kind. JAR, ZIP-family and Java have no label. Every labelled extension lands in one of those four buckets. |
| FileTypes.CaseSensitivityExamples | main.rs:366-383 | Bucketing is case-sensitive (`JAR` is "other"), while labelling is not (`PROPERTIES` is `properties_config`). |
| FileTypes.GetArchiveFileType | main.rs:780-786 | An entry's type is a dot-free suffix of its name, preceded by a dot or equal to the whole name. |
| FileTypes.ClassEntryType | main.rs:780-786 | Every name ending in `.class` is typed `class`. |
| FileTypes.ArchiveFileTypeExample | main.rs:780-786 | The whole name is split, so `conf.d/README` is typed `d/README`. |
| Gating.ShouldExcludePath | main.rs:72-81 | Trying the exclusion strings one by one answers true if and only if some exclusion string occurs in the path. |
| Gating.ShouldProcessFile | main.rs:713-733 | An excluded file is refused. Otherwise a file of unknown size is accepted, and a threshold of 0 accepts everything. Otherwise a file is refused exactly when it is smaller than the threshold. |
| Gating.HigherThresholdAdmitsFewer | main.rs:713-733 | Raising the threshold never admits a file that was refused. This includes switching the gate on from 0. |
| Gating.NoGateAdmitsAll | main.rs:713-733 | With no exclusion strings and a threshold of 0, every file is admitted, whatever its size. |
| Gating.MoreExcludesAdmitFewer | main.rs:713-720 | Adding exclusion strings never admits a file that was refused. |
| Gating.EmptyExclusionExcludesAll | main.rs:72-81 | An empty exclusion string excludes every path. |
| Gating.FindArchiveFiles | main.rs:692-711 | The archive finder keeps exactly the walked files that are not excluded and whose extension equals a target when both are lower-cased. Each one is kept as many times as it was walked. It never yields more files than were walked. |
| Gating.FindArchiveFilesInWalkOrder | main.rs:692-711 | The archive finder keeps walk order: its j-th file is the walked file at the j-th position of `Gating.ArchivePositions`, the ascending positions of the files it keeps. |
| Gating.FindArchiveFilesIgnoresCase | main.rs:698-705 | A file `A.JAR` is found by a search for `jar`. |
| ArchiveScan.Readable | main.rs:458-460 | The entries searched are exactly those that `by_index` can read, each as many times as the archive holds it. |
| ArchiveScan.ReadableInIndexOrder | main.rs:458-460 | The readable entries are searched in index order: the j-th is the entry at the j-th position of `ArchiveScan.ReadablePositions`, the ascending indices that `by_index` can read. |
| ArchiveScan.ContentOfRouted | main.rs:529-584 | `ArchiveScan.ContentOf`, `ArchiveScan.EntryContent` and `ArchiveScan.TextResults`, the entry loop of `search_content_in_jar`: every result of a JAR content search comes from a readable non-directory entry that the type filter selects, located at `archive:entry`. A class entry yields one of its bytecode strings typed `class_bytecode`. Any other entry yields one of its matching lines, typed by the text after the last dot of its name. Every result of searching such an entry is reported. |
| ArchiveScan.CountsArePartition | main.rs:545-556 | `ArchiveScan.CountsOf`, the counters of `search_content_in_jar`: the content search counts every readable non-directory entry exactly once, under its kind. Each counter is the number of files of that kind, and the three add up to the number of files. |
| ArchiveScan.JarCensus | main.rs:919-944 | `ArchiveScan.CountJarContents` reports the content search's class and Java counters and the number of readable non-directory entries. An archive that cannot be opened reports nothing. |
| ArchiveScan.CensusAgreesWithCounts | main.rs:919-944 | `count_jar_contents` agrees with the content search's counters. The class and Java counts are equal, and its file count is the sum of all three counters. |
| ArchiveScan.ClassCountAgrees | main.rs:462-463 | The class query counts the same class entries as the content search. |
| ArchiveScan.FilterCoverage | main.rs:559-562 | `*` or all three kinds select every entry. `class`, `java` and `other` each select exactly their own kind. |
| ArchiveScan.ClassesOf | main.rs:459-486 | The class query reports a result if and only if it belongs to a readable `.class` entry whose class name matches the query. Each result is at `archive:entry`, carries the class name and is typed `class`. There are exactly as many results as selected entries. |
| ArchiveScan.ClassesInEntryOrder | main.rs:459-486 | The class query reports in entry order: its j-th result is the hit of the entry at the j-th position of `ArchiveScan.ClassPositions`, the ascending positions of the selected entries. |
| ArchiveScan.PackagesOf | main.rs:504-520 | The package query reports a result if and only if it belongs to a readable `.class` entry that starts with the package path. Each result is typed `package`. There are exactly as many results as matching entries. |
| ArchiveScan.PackagesInEntryOrder | main.rs:504-520 | The package query reports in entry order: its j-th result is the hit of the entry at the j-th position of `ArchiveScan.PackagePositions`, the ascending positions of the matching entries. |
| ArchiveScan.ZipContentRouted | main.rs:586-607 | `ArchiveScan.ZipContentOf`, the entry loop of `search_content_in_zip`: every result is a matching line of a readable non-directory entry, located at `archive:entry` and typed by the text after the last dot of the entry name. Every matching line of every such entry is reported. |
| ArchiveScan.ZipEntryRouted | main.rs:634-649 | `ArchiveScan.TextResults`, the line loop of `search_in_text_content`, on a readable non-directory entry: every result is a matching line of the entry, numbered from 1, trimmed, located at `archive:entry` and typed by the text after the last dot of the entry name. Every matching line is reported. |
| ArchiveScan.ZipIsJarWithoutClasses | main.rs:586-607 | With no class entries, a ZIP-family search reports what a JAR content search with filter `*` would. |
| Search.UnitStats | main.rs:489-492 | A unit counts one more processed file. A class query adds the number of class files. A JAR content search adds one counter per kind, so the three totals grow by the number of file entries. The JAR and ZIP totals are untouched. |
| Search.RunUnit | main.rs:447-458 | A file refused by the size gate, or one that cannot be opened, changes nothing. Otherwise its matches are counted and added, one more file is processed, and the unit's entry counters are added to the class, Java and other totals. |
| Search.SearchContent | main.rs:176-191 | The content search fails if and only if the pattern is invalid. |
| Search.MasterSearch | main.rs:337-445 | Master mode fails if and only if the pattern is invalid. |
| Search.Kept | main.rs:348-354 | Master mode keeps exactly the walked files that are not excluded, each as many times as it was walked. |
| Search.KeptInWalkOrder | main.rs:348-354 | Master mode keeps walk order: its j-th kept file is the walked file at the j-th position of `Search.KeptPositions`, the ascending positions of the files it keeps. |
| Search.Bucket | main.rs:366-383 | A bucket holds exactly the kept files of its category. |
| Search.BucketMultiplicity | main.rs:366-383 | A bucket holds each kept file of its category as many times as it was kept, and no other file. |
| Search.PlanIsPartition | main.rs:366-398 | Every kept file lands in the bucket of its category and in no other. The four phases together cover every kept file once. |
| Search.UnitResultsLocated | main.rs:447-632 | Every match a unit reports is located exactly at the searched file's path, or at `archive:entry` for one of its readable entries. |
| Search.RunAllLocated | main.rs:134-136 | A phase keeps the configuration and only appends results. Each appended result is located in a phase file that passed the size gate. |
| Search.RunAllCounts | main.rs:134-136 | A phase processes exactly the files that the size gate admits and that open, counting each once. It adds exactly their entry counters to the class, Java and other totals, and leaves the JAR and ZIP totals alone. It counts exactly the phase's matches, `Search.PhaseResults`, in `matches_found`. |
| Search.PhaseResultsMembers | main.rs:134-136 | A phase reports exactly the matches of the units it runs on the files the gate admits and that open. |
| Search.RunAllIsFold | main.rs:98-136 | A phase leaves the tool as `add_result` folded over its matches, file after file: the same stored results and seen locations, and `matches_found` grown by their number. |
| Search.RunAllNormalMode | main.rs:98-136 | In normal mode a phase appends its matches to the results, in order. |
| Search.PhaseMiniModeCounts | main.rs:98-136 | From a fresh mini-mode tool a phase stores one result per distinct match location, never more than the matches it counts, and counts every match. |
| Search.ClassPhaseResults | main.rs:125-157 | The class query phase reports a hit for exactly each selected class entry of each JAR it processes. |
| Search.PackagePhaseResults | main.rs:159-174 | The package query phase reports a hit for exactly each entry inside the package of each JAR it processes. |
| Search.SearchPhaseResults | main.rs:125-191 | A one-phase search stores exactly its phase's matches as `add_result` folds them, counts each, and in normal mode appends them in order. |
| Search.MasterPhasesResults | main.rs:337-445 | Master mode's four phases leave the tool as `add_result` folded over `Search.MasterResults`, their matches phase after phase, and count each. |
| Search.MasterStore | main.rs:337-445 | Master mode stores exactly its phases' matches as `add_result` folds them and counts each; in normal mode they are appended in order. |
| Search.NoCountsOutsideJars | main.rs:586-649 | The ZIP-family, Java-source and loose-file phases add nothing to the class, Java and other totals. |
| Search.PlannedTotalsCoverFiles | main.rs:392-397 | `Search.PlannedStats`: right after bucketing, the JAR, ZIP, Java and other totals add up to the number of kept files. |
| Search.RunAllKeepsMiniInv | main.rs:134-136 | A phase keeps a mini-mode tool consistent. |
| Search.MasterSearchFacts | main.rs:337-445 | `Search.Master` and its phases `Search.Phases`: with a valid pattern, master mode keeps the configuration and sets the JAR and ZIP totals to the bucket sizes. Results are only appended, each located in a kept file that passed the size gate, and a mini-mode tool stays consistent. In normal mode the results grow by exactly `Search.MasterResults`. |
| Search.MasterSearchCounts | main.rs:337-445 | The files master mode processes are exactly those of the four phases that the gate admits and that open, at most one per kept file. The Java and other totals are their bucket sizes plus the JAR phase's Java and other entries. The class total grows by the JAR phase's class entries. `matches_found` grows by the number of the phases' matches. |
| Search.MasterCountsJarEntriesAsFiles | main.rs:392-412 | A walk of one JAR holding only `A.java` has an empty Java bucket, yet master mode ends with a Java total of 1. |
| Search.SearchClassesFacts | main.rs:125-157 | `Search.SearchClasses`, the exact and substring class searches: the JAR total is the number of JARs found. The files processed are exactly the found JARs that the gate admits and that open. Each adds its class entries to the class total. Results are only appended, each located in a found JAR that passed the gate. `matches_found` grows by the phase's matches, which normal mode appends in order. |
| Search.SearchPackageFacts | main.rs:159-174 | `Search.SearchPackage`, the package search: the JAR total is the number of JARs found. The files processed are exactly the found JARs that the gate admits and that open. Results are only appended, each located in a found JAR that passed the gate. `matches_found` grows by the phase's matches, which normal mode appends in order. |
| Search.SearchContentFacts | main.rs:176-191 | The content search with a valid pattern: the JAR total is the number of JARs found. The files processed are exactly the found JARs that the gate admits and that open. Their entry counters are added to the class, Java and other totals. Results are only appended, each located in a found JAR that passed the gate. `matches_found` grows by the phase's matches, which normal mode appends in order. |

## Left out

- Directory walking, file opening, metadata and zip decoding are not modelled. Their outcomes are inputs: the walked `FileNode`s with an optional size, archive view, lines and bytes. Archive entries may be unreadable.
- Regular expressions are an uninterpreted predicate. Compilation failure is the `None` pattern.
- `par_iter` and the thread pool are left out. Phases are sequential folds in walk order, and the order of results under real parallelism is not modelled.
- Mutex poisoning is left out. The source silently skips an update when a lock is poisoned.
- Timing (`elapsed_time`, `Instant`) is left out.
- `log_verbose`, printing, `print_results`, `print_stats`, `list_jars` and `export_csv` are left out, because they produce output only. The CLI `main` is left out too.
- `is_text_file` is left out, because no search path calls it.
- `search_java_files` is left out, because it is outside the searched core.
- `usize` and `u64` overflow of the counters is left out. Counters are unbounded naturals.
- `Text.Trim` trims ASCII whitespace only, while Rust's `trim` removes Unicode whitespace. Lines are given already split, so the `lines()` splitting rules are not modelled.
- `Text.ToLower` lower-cases ASCII letters only, while Rust's `to_lowercase` is Unicode-aware.
- `Path::extension`, `display` and `to_string_lossy` are taken as given: the extension is an input and the path is a string.
- `Gating.ShouldExcludePath` picks exclusion strings in an arbitrary order, like `HashSet` iteration. Only the verdict is stated, not which string matched first.
