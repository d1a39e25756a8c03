/** The tool's data: search results, running statistics, configuration and
    the inputs the file system would supply (walked files, archive entries,
    lines read from a file). Reading files, walking directories and
    decoding zip archives happen outside the model; their outcomes arrive
    here as values, with `None` / `ReadError` standing for the failures the
    tool tolerates. */
module Model {
  import opened Wrappers

  newtype byte = x: int | 0 <= x < 256

  /** A compiled regular expression, reduced to its `is_match` test. */
  type Pattern = string -> bool

  /** One reported match. `fileLocation` is a path, or `archive:entry` for
      an entry inside an archive; `lineNumber` is 1-based and absent for
      class, package and binary-string matches. */
  datatype SearchResult = SearchResult(
    fileLocation: string,
    lineNumber: Option<nat>,
    lineContent: string,
    matchType: string)

  /** The statistics record; `elapsed_time` is not modelled. */
  datatype Stats = Stats(
    totalJars: nat,
    totalZipFiles: nat,
    totalClassFiles: nat,
    totalJavaFiles: nat,
    totalOtherFiles: nat,
    matchesFound: nat,
    filesProcessed: nat)

  const ZeroStats := Stats(0, 0, 0, 0, 0, 0, 0)

  /** The options a `JarTool` is built with that the search logic reads:
      the minimum file size (0 disables the check), the exclusion
      substrings and mini (unique files) mode. */
  datatype Config = Config(sizeThreshold: nat, excludes: set<string>, miniMode: bool)

  /** The mutable part of a `JarTool`: statistics, the result list and, in
      mini mode, the set of locations already reported. */
  datatype Tool = Tool(config: Config, stats: Stats, results: seq<SearchResult>, uniqueFiles: set<string>)

  /** A freshly constructed tool. */
  function NewTool(config: Config): Tool {
    Tool(config, ZeroStats, [], {})
  }

  /** One item of a buffered reader's `lines()`: a decoded line, or an I/O
      or UTF-8 error. */
  datatype LineRead = Line(text: string) | ReadError

  /** An archive entry as the zip reader presents it: its name, its bytes
      (`None` when `read_to_end` fails) and its text split into lines
      (`None` when `read_to_string` fails, e.g. on invalid UTF-8). */
  datatype Entry = Entry(name: string, bytes: Option<seq<byte>>, lines: Option<seq<string>>)

  /** The entries of an opened archive in index order; `None` where
      `by_index` fails. */
  type Archive = seq<Option<Entry>>

  /** A regular file found by the directory walk, with everything the tool
      may read from it: its extension, its size (`None` when its metadata
      cannot be read), its archive view (`None` when it cannot be opened as
      a zip archive), its lines (`None` when it cannot be opened) and its
      bytes (`None` when reading them fails). */
  datatype FileNode = FileNode(
    path: string,
    ext: Option<string>,
    size: Option<nat>,
    archive: Option<Archive>,
    lines: Option<seq<LineRead>>,
    bytes: Option<seq<byte>>)
}
