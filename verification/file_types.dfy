/** File-type labels and master mode's classification of walked files.
    `get_file_type` lower-cases a loose file's extension before looking it
    up; `get_archive_file_type` takes whatever follows the last dot of an
    entry name; master mode's bucketing compares the extension exactly as
    written, so `A.JAR` is not a JAR there. */
module FileTypes {
  import opened Wrappers
  import opened Text

  /** The buckets of master mode. */
  datatype Category = Jar | ZipFamily | JavaSource | ConfigFile | ScriptFile | XmlFile | TextFile | OtherFile

  /** Master mode's case-sensitive bucketing by extension; files without an
      extension are "other". */
  function Classify(ext: Option<string>): Category {
    match ext
    case None => OtherFile
    case Some(e) =>
      if e == "jar" then Jar
      else if e in {"zip", "war", "ear"} then ZipFamily
      else if e == "java" then JavaSource
      else if e in {"properties", "conf", "config", "cfg", "ini"} then ConfigFile
      else if e in {"bat", "cmd", "sh", "ps1", "py", "rb"} then ScriptFile
      else if e in {"xml", "xsd", "xsl", "xslt"} then XmlFile
      else if e in {"txt", "md", "log", "yaml", "yml", "json"} then TextFile
      else OtherFile
  }

  /** The label of a known lower-case extension; `None` for the others. */
  function KnownLabel(e: string): Option<string> {
    if e == "properties" then Some("properties_config")
    else if e in {"conf", "config", "cfg"} then Some("configuration")
    else if e in {"bat", "cmd"} then Some("batch_script")
    else if e == "sh" then Some("shell_script")
    else if e in {"xml", "xsd", "xsl", "xslt"} then Some("xml_document")
    else if e == "json" then Some("json_data")
    else if e in {"yaml", "yml"} then Some("yaml_data")
    else if e == "ini" then Some("ini_config")
    else if e == "log" then Some("log_file")
    else if e == "txt" then Some("text_file")
    else if e == "md" then Some("markdown")
    else if e == "py" then Some("python_script")
    else if e == "rb" then Some("ruby_script")
    else if e == "ps1" then Some("powershell_script")
    else None
  }

  /** The `match_type` of a loose file: the label of its lower-cased
      extension, the lower-cased extension itself when it has no label, and
      `no_extension` when there is none. */
  function GetFileType(ext: Option<string>): (r: string)
    ensures ext.None? ==> r == "no_extension"
    ensures ext.Some? && KnownLabel(ToLower(ext.value)).Some? ==> r == KnownLabel(ToLower(ext.value)).value
    ensures ext.Some? && KnownLabel(ToLower(ext.value)).None? ==> r == ToLower(ext.value)
  {
    match ext
    case None => "no_extension"
    case Some(e) => KnownLabel(ToLower(e)).GetOr(ToLower(e))
  }

  /** The `match_type` of an archive entry: the text after the last dot of
      its name, or the whole name when it has no dot. Splitting always
      yields a last piece, so the `unknown` branch is unreachable. */
  function GetArchiveFileType(name: string): (r: string)
    ensures '.' !in r && EndsWith(name, r)
    ensures |r| == |name| || name[|name| - |r| - 1] == '.'
  {
    AfterLastDot(name)
  }

  lemma LowerCharIdempotent(c: char)
    ensures LowerChar(LowerChar(c)) == LowerChar(c)
  {
  }

  /** Lower-casing twice is lower-casing once. */
  lemma ToLowerIdempotent(s: string)
    ensures ToLower(ToLower(s)) == ToLower(s)
  {
    var once := ToLower(s);
    var twice := ToLower(once);
    forall k | 0 <= k < |s|
      ensures twice[k] == once[k]
    {
      LowerCharIdempotent(s[k]);
    }
  }

  /** `get_file_type` ignores the case of the extension. */
  lemma FileTypeIgnoresCase(e: string)
    ensures GetFileType(Some(e)) == GetFileType(Some(ToLower(e)))
  {
    ToLowerIdempotent(e);
  }

  /** Master mode's bucket and `get_file_type`'s label agree on every
      lower-case extension: a configuration, script, XML or text file gets
      the matching kind of label, and the archive and Java buckets have no
      label of their own. */
  lemma CategoryAgreesWithLabel(e: string)
    ensures Classify(Some(e)) == ConfigFile ==>
      KnownLabel(e).Some? && KnownLabel(e).value in {"properties_config", "configuration", "ini_config"}
    ensures Classify(Some(e)) == ScriptFile ==>
      KnownLabel(e).Some? && KnownLabel(e).value in {"batch_script", "shell_script", "python_script", "ruby_script", "powershell_script"}
    ensures Classify(Some(e)) == XmlFile ==> KnownLabel(e) == Some("xml_document")
    ensures Classify(Some(e)) == TextFile ==>
      KnownLabel(e).Some? && KnownLabel(e).value in {"text_file", "markdown", "log_file", "yaml_data", "json_data"}
    ensures Classify(Some(e)) in {Jar, ZipFamily, JavaSource} ==> KnownLabel(e).None?
    ensures KnownLabel(e).Some? ==> Classify(Some(e)) in {ConfigFile, ScriptFile, XmlFile, TextFile}
  {
  }

  /** The bucketing is case-sensitive while the labelling is not: an
      upper-case `JAR` is bucketed as "other", and `PROPERTIES` is still
      labelled `properties_config`. */
  lemma CaseSensitivityExamples()
    ensures Classify(Some("jar")) == Jar
    ensures Classify(Some("JAR")) == OtherFile
    ensures Classify(Some("Properties")) == OtherFile
    ensures GetFileType(Some("PROPERTIES")) == "properties_config"
    ensures GetFileType(Some("Java")) == "java"
    ensures GetFileType(None) == "no_extension"
  {
    assert ToLower("PROPERTIES") == "properties";
    assert ToLower("Java") == "java";
  }

  /** An entry ending in `.class` is typed `class`. */
  lemma ClassEntryType(name: string)
    requires EndsWith(name, ".class")
    ensures GetArchiveFileType(name) == "class"
  {
    var p := |name| - 6;
    assert name[p..] == ".class";
    assert name[p] == '.' && name[p + 1..] == "class";
    AfterLastDotAt(name, p);
  }

  /** The type is taken from the whole entry name, not from its last path
      segment, so a dot in a directory name leaks into it. */
  lemma ArchiveFileTypeExample()
    ensures GetArchiveFileType("conf.d/README") == "d/README"
  {
    var name := "conf.d/README";
    assert name[4] == '.' && name[5..] == "d/README";
    AfterLastDotAt(name, 4);
  }
}
