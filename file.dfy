/**
 * Joining a directory name and a file name into a path.  The separator is
 * '\\' on Windows builds and '/' elsewhere; here it is a parameter.
 */
module FilePath {

  const DefaultSeparator := '/'

  predicate IsAbsolute(path: string, separator: char)
  {
    |path| > 0 && path[0] == separator
  }

  /** What JoinPath puts between a non-empty `dirname` and a relative `basename`. */
  function Glue(dirname: string, separator: char): string
    requires dirname != []
  {
    if dirname[|dirname| - 1] == separator then [] else [separator]
  }

  /**
   * `basename` under `dirname`.  The result ends with `basename`; what comes
   * before is nothing when `basename` is absolute or `dirname` is empty, and
   * otherwise `dirname` followed by exactly one separator, which is added
   * only when `dirname` does not already end with it.
   */
  function JoinPath(dirname: string, basename: string, separator: char := DefaultSeparator): (r: string)
    ensures |r| >= |basename| && r[|r| - |basename|..] == basename
    ensures |r| <= |dirname| + 1 + |basename|
    ensures IsAbsolute(basename, separator) || dirname == [] ==> r == basename
    ensures !IsAbsolute(basename, separator) && dirname != [] ==>
      var prefix := r[..|r| - |basename|];
      && |dirname| <= |prefix| <= |dirname| + 1
      && prefix[..|dirname|] == dirname
      && prefix[|prefix| - 1] == separator
      && (|prefix| == |dirname| <==> dirname[|dirname| - 1] == separator)
  {
    if IsAbsolute(basename, separator) || dirname == [] then
      basename
    else
      var prefix := dirname + Glue(dirname, separator);
      assert (prefix + basename)[..|prefix|] == prefix;
      prefix + basename
  }

  /** The contract of JoinPath leaves no choice: it pins down the result. */
  lemma JoinPathDetermined(dirname: string, basename: string, separator: char, r: string)
    requires |r| >= |basename| && r[|r| - |basename|..] == basename
    requires IsAbsolute(basename, separator) || dirname == [] ==> r == basename
    requires !IsAbsolute(basename, separator) && dirname != [] ==>
      var prefix := r[..|r| - |basename|];
      && |dirname| <= |prefix| <= |dirname| + 1
      && prefix[..|dirname|] == dirname
      && prefix[|prefix| - 1] == separator
      && (|prefix| == |dirname| <==> dirname[|dirname| - 1] == separator)
    ensures r == JoinPath(dirname, basename, separator)
  {
    if !IsAbsolute(basename, separator) && dirname != [] {
      var prefix := r[..|r| - |basename|];
      assert r == prefix + basename;
      if |prefix| == |dirname| {
        assert prefix == dirname;
      } else {
        assert prefix == dirname + [separator];
      }
    }
  }

  lemma JoinPathGlued(dirname: string, basename: string, separator: char)
    requires dirname != [] && !IsAbsolute(basename, separator)
    ensures JoinPath(dirname, basename, separator) == dirname + Glue(dirname, separator) + basename
  {
  }

  lemma JoinPathAssociativeEmptyMiddle(a: string, c: string, separator: char)
    requires a != [] && !IsAbsolute(c, separator)
    ensures JoinPath(JoinPath(a, [], separator), c, separator) == JoinPath(a, c, separator)
  {
    var left := JoinPath(a, [], separator);
    JoinPathGlued(a, [], separator);
    assert left[|left| - 1] == separator;
    JoinPathGlued(left, c, separator);
    JoinPathGlued(a, c, separator);
  }

  /** Gluing is associative on plain concatenations, and a glued path ends as its last part does. */
  lemma GlueAssociative(a: string, b: string, c: string, separator: char)
    requires a != [] && b != []
    ensures Glue(a + Glue(a, separator) + b, separator) == Glue(b, separator)
    ensures (a + Glue(a, separator) + b) + Glue(b, separator) + c ==
            a + Glue(a, separator) + (b + Glue(b, separator) + c)
  {
    var ab := a + Glue(a, separator) + b;
    assert ab[|ab| - 1] == b[|b| - 1];
  }

  lemma JoinPathAssociativeRelative(a: string, b: string, c: string, separator: char)
    requires a != [] && b != [] && !IsAbsolute(b, separator) && !IsAbsolute(c, separator)
    ensures JoinPath(JoinPath(a, b, separator), c, separator) ==
            JoinPath(a, JoinPath(b, c, separator), separator)
  {
    var left := JoinPath(a, b, separator);
    var right := JoinPath(b, c, separator);
    JoinPathGlued(a, b, separator);
    JoinPathGlued(b, c, separator);
    GlueAssociative(a, b, c, separator);
    JoinPathGlued(left, c, separator);
    assert right[0] == b[0];
    JoinPathGlued(a, right, separator);
  }

  /** Joining three names gives the same path however the joins are grouped. */
  lemma JoinPathAssociative(a: string, b: string, c: string, separator: char)
    ensures JoinPath(JoinPath(a, b, separator), c, separator) ==
            JoinPath(a, JoinPath(b, c, separator), separator)
  {
    if IsAbsolute(c, separator) {
    } else if IsAbsolute(b, separator) {
      JoinPathGlued(b, c, separator);
      assert JoinPath(b, c, separator)[0] == b[0];
    } else if a == [] {
    } else if b == [] {
      JoinPathAssociativeEmptyMiddle(a, c, separator);
    } else {
      JoinPathAssociativeRelative(a, b, c, separator);
    }
  }
}
