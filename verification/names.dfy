/** Class names and the class and package queries over archive entry names
    (`search_class_in_jar`, `search_package_in_jar`, `search_package`). An
    entry name is a slash-separated path such as `com/foo/Bar.class`; its
    class name is the dotted form `com.foo.Bar`. */
module Names {
  import opened Text

  /** The class name of an entry: a trailing `.class` stripped, then every
      `/` replaced by `.`. */
  function ClassName(entry: string): (r: string)
    ensures |r| == |StripSuffix(entry, ".class")|
    ensures '/' !in r
    ensures forall k :: 0 <= k < |r| ==>
      (r[k] == '.' <==> entry[k] in {'.', '/'})
    ensures forall k :: 0 <= k < |r| ==> r[k] == (if entry[k] == '/' then '.' else entry[k])
  {
    Replace(StripSuffix(entry, ".class"), '/', '.')
  }

  /** Exact class query: the name is the query itself or ends with `.`
      followed by the query. */
  predicate ExactMatch(name: string, query: string) {
    EndsWith(name, "." + query) || name == query
  }

  /** Substring class query. */
  predicate SubstringMatch(name: string, query: string) {
    Contains(name, query)
  }

  /** The class query of `search_class_in_jar` in either mode. */
  predicate ClassMatches(name: string, query: string, exact: bool) {
    if exact then ExactMatch(name, query) else SubstringMatch(name, query)
  }

  /** A package name turned into the entry-path prefix it is matched with. */
  function PackagePath(pkg: string): (r: string)
    ensures |r| == |pkg| && '.' !in r
    ensures forall k :: 0 <= k < |pkg| ==> r[k] == (if pkg[k] == '.' then '/' else pkg[k])
  {
    Replace(pkg, '.', '/')
  }

  /** The package query: a class entry whose name starts with the path,
      with no separator required after it. */
  predicate PackageMatch(entry: string, path: string) {
    EndsWith(entry, ".class") && StartsWith(entry, path)
  }

  /** Suffix matching is on whole dotted components only when the query has
      no dot of its own: then an exact match means the last component of the
      name is the query, and conversely. */
  lemma ExactMatchIsLastComponent(name: string, query: string)
    requires '.' !in query
    ensures ExactMatch(name, query) <==> AfterLastDot(name) == query
  {
    var last := AfterLastDot(name);
    if name == query {
      AfterLastDotNoDot(name);
    } else if EndsWith(name, "." + query) {
      DottedSuffixIsLast(name, query);
    }
    if last == query && |last| < |name| {
      DotBeforeSuffix(name, query);
    }
  }

  lemma DottedSuffixIsLast(name: string, query: string)
    requires '.' !in query && EndsWith(name, "." + query)
    ensures AfterLastDot(name) == query
  {
    var p := |name| - |query| - 1;
    var tail := name[p..];
    assert tail == "." + query;
    assert name[p] == tail[0];
    assert name[p + 1..] == tail[1..];
    AfterLastDotAt(name, p);
  }

  /** A name whose last component is `query`, preceded by a dot, ends with
      `.` and `query`. */
  lemma DotBeforeSuffix(name: string, query: string)
    requires |query| < |name| && name[|name| - |query| - 1] == '.' && name[|name| - |query|..] == query
    ensures EndsWith(name, "." + query)
  {
    var p := |name| - |query| - 1;
    var suffix := name[p..];
    assert suffix[0] == '.';
    assert suffix[1..] == query;
    assert suffix == [suffix[0]] + suffix[1..];
  }

  /** Every exact match is also a substring match. */
  lemma ExactImpliesSubstring(name: string, query: string)
    requires ExactMatch(name, query)
    ensures SubstringMatch(name, query)
  {
    if name == query {
      assert OccursAt(name, query, 0);
    } else {
      var i := |name| - |query|;
      assert name[i..] == query;
      assert OccursAt(name, query, i);
    }
  }

  /** Exact matching on the documented examples: `Bar` matches
      `com.foo.Bar` and `Bar`, and matches neither `FooBar` nor
      `com.fooBar`. A dotted query is matched as a suffix too, so
      `com.foo.Bar` also matches `org.com.foo.Bar`. */
  lemma ExactMatchExamples()
    ensures ExactMatch("com.foo.Bar", "Bar")
    ensures ExactMatch("Bar", "Bar")
    ensures !ExactMatch("FooBar", "Bar")
    ensures !ExactMatch("com.fooBar", "Bar")
    ensures ExactMatch("org.com.foo.Bar", "com.foo.Bar")
  {
    assert "org.com.foo.Bar"[3..] == ".com.foo.Bar";
    assert "com.foo.Bar"[7..] == ".Bar";
    assert "FooBar"[2..] != ".Bar" by { assert "FooBar"[2..][0] == 'o'; }
    assert "com.fooBar"[6..] != ".Bar" by { assert "com.fooBar"[6..][0] == 'o'; }
  }

  /** The class name of an entry without a dot before `.class` turns back
      into the entry: `/` restored and `.class` re-appended. */
  lemma ClassNameRoundTrip(entry: string)
    requires EndsWith(entry, ".class")
    requires '.' !in StripSuffix(entry, ".class")
    ensures Replace(ClassName(entry), '.', '/') + ".class" == entry
  {
    var stem := StripSuffix(entry, ".class");
    ReplaceRoundTrip(stem, '/', '.');
  }

  /** A package match is a class whose dotted name starts with the package
      name (when the package name has no `/`); conversely, a class entry
      whose dotted name starts with the package name and whose stem has no
      dot is a package match. */
  lemma PackageMatchByClassName(entry: string, pkg: string)
    requires '/' !in pkg
    ensures PackageMatch(entry, PackagePath(pkg)) ==> StartsWith(ClassName(entry), pkg)
    ensures EndsWith(entry, ".class") && '.' !in StripSuffix(entry, ".class") && StartsWith(ClassName(entry), pkg)
      ==> PackageMatch(entry, PackagePath(pkg))
  {
    var path := PackagePath(pkg);
    var stem := StripSuffix(entry, ".class");
    var name := ClassName(entry);
    if PackageMatch(entry, path) {
      assert stem + ".class" == entry;
      assert entry[|stem|] == '.';
      if |path| > |stem| {
        assert false;
      }
      forall k | 0 <= k < |pkg|
        ensures name[k] == pkg[k]
      {
        assert entry[k] == path[k] && stem[k] == entry[k];
      }
    }
    if EndsWith(entry, ".class") && '.' !in stem && StartsWith(name, pkg) {
      assert stem + ".class" == entry;
      forall k | 0 <= k < |pkg|
        ensures entry[k] == path[k]
      {
        assert stem[k] == entry[k] && name[k] == pkg[k];
        assert stem[k] != '.';
      }
    }
  }

  /** The package prefix carries no trailing separator: `com.foo` also
      selects classes of the package `com.foobar`. */
  lemma PackagePrefixWithoutSeparator()
    ensures PackagePath("com.foo") == "com/foo"
    ensures PackageMatch("com/foobar/X.class", PackagePath("com.foo"))
  {
    assert PackagePath("com.foo") == "com/foo";
    assert "com/foobar/X.class"[..7] == "com/foo";
    assert "com/foobar/X.class"[12..] == ".class";
  }
}
