/** The part of Node's POSIX `path.parse` that the asset lookup reads: the
    last path segment, split into `name` and `ext`. */
module PathParse {
  import opened Wrappers
  import opened Text

  datatype ParsedPath = ParsedPath(name: string, ext: string)

  /** The path without its trailing run of `/` characters. */
  function StripTrailingSlashes(p: string): (r: string)
    ensures |r| <= |p| && r == p[..|r|]
    ensures |r| == 0 || r[|r| - 1] != '/'
    ensures forall i :: |r| <= i < |p| ==> p[i] == '/'
  {
    if |p| > 0 && p[|p| - 1] == '/' then StripTrailingSlashes(p[..|p| - 1]) else p
  }

  /** The last segment of a path (its `base`): what follows the last `/`
      once trailing slashes are dropped. */
  function LastSegment(p: string): (r: string)
    ensures '/' !in r
    ensures var t := StripTrailingSlashes(p);
            EndsWith(t, r) && (|r| == |t| || t[|t| - |r| - 1] == '/')
  {
    var t := StripTrailingSlashes(p);
    match LastIndexOf(t, '/')
    case None => t
    case Some(i) => t[i + 1..]
  }

  /** A segment without an extension: it has no dot after its first
      character, or it is exactly `..`. A leading dot (as in `.bashrc`)
      starts the name, not an extension. */
  predicate HasNoExtension(base: string) {
    |base| == 0 || '.' !in base[1..] || base == ".."
  }

  /** A path whose last segment is `..` directly under the root (`/..`,
      `/../`). Node's test for a bare `..` segment compares the dot's position
      with the start of the segment, which it only records on meeting a `/`
      before the segment; the root slash is never met, so this segment is
      split at its last dot like any other. */
  predicate IsRootParent(p: string) {
    StripTrailingSlashes(p) == "/.."
  }

  /** `path.parse(p)` restricted to `name` and `ext`: `ext` runs from the last
      dot of the last segment to its end, unless that segment has no
      extension, and `name` is the rest of the segment. A `..` directly under
      the root counts as having one. */
  function Parse(p: string): (r: ParsedPath)
    ensures r.name + r.ext == LastSegment(p)
    ensures r.ext == "" <==> HasNoExtension(LastSegment(p)) && !IsRootParent(p)
    ensures r.ext != "" ==> r.ext[0] == '.' && '.' !in r.ext[1..] && r.name != ""
  {
    var base := LastSegment(p);
    if IsRootParent(p) then
      RootParentSegment(p);
      ParsedPath(".", ".")
    else if HasNoExtension(base) then ParsedPath(base, "")
    else
      var d := LastIndexOf(base, '.').value;
      SplitAtLastDot(base);
      ParsedPath(base[..d], base[d..])
  }

  /** The last segment of `/..` is `..`. */
  lemma RootParentSegment(p: string)
    requires IsRootParent(p)
    ensures LastSegment(p) == ".."
  {
    var t := StripTrailingSlashes(p);
    var r := LastSegment(p);
    assert t[0] == '/' && t[1] == '.' && t[2] == '.';
    assert r == t[|t| - |r|..];
  }

  /** Splitting a segment that has an extension at its last dot gives a
      non-empty name and a dot followed by no other dot. */
  lemma SplitAtLastDot(base: string)
    requires !HasNoExtension(base)
    ensures LastIndexOf(base, '.').Some?
    ensures var d := LastIndexOf(base, '.').value;
            && 1 <= d < |base|
            && base[..d] + base[d..] == base
            && base[d..][0] == '.' && '.' !in base[d..][1..]
  {
    LastDotNotFirst(base);
    var d := LastIndexOf(base, '.').value;
    var ext := base[d..];
    assert ext[0] == base[d];
    assert ext[1..] == base[d + 1..];
  }

  /** When a dot follows the first character, the last dot is not the first
      character. */
  lemma LastDotNotFirst(base: string)
    requires |base| > 0 && '.' in base[1..]
    ensures LastIndexOf(base, '.').Some? && LastIndexOf(base, '.').value >= 1
  {
    var k :| 0 <= k < |base[1..]| && base[1..][k] == '.';
    assert base[k + 1] == '.';
    if LastIndexOf(base, '.').value == 0 {
      assert base[1..][k] == '.';
    }
  }

  /** Parsing a segment assembled from a name and an extension gives back that
      name and that extension: `Parse` inverts concatenation on the segments it
      can produce. */
  lemma ParseComposed(name: string, ext: string)
    requires '/' !in name && '/' !in ext
    requires ext == "" ==> HasNoExtension(name)
    requires ext != "" ==> ext[0] == '.' && '.' !in ext[1..] && name != "" && name + ext != ".."
    ensures Parse(name + ext) == ParsedPath(name, ext)
  {
    var base := name + ext;
    assert '/' !in base;
    assert StripTrailingSlashes(base) == base;
    assert LastSegment(base) == base;
    if ext != "" {
      assert base[1..][|name| - 1] == '.';
      var d := LastIndexOf(base, '.').value;
      assert d == |name|;
    }
  }

  /** `..` splits at its last dot directly under the root, and nowhere else:
      `/..` and `/../` parse as name `.` with extension `.`, while `..` on its
      own or under any non-empty directory keeps the whole segment as the
      name. */
  lemma RootParentSplitsAtDot(p: string, dir: string)
    requires IsRootParent(p) && dir != ""
    ensures Parse(p) == ParsedPath(".", ".")
    ensures Parse("..") == ParsedPath("..", "")
    ensures Parse(dir + "/" + "..") == ParsedPath("..", "")
  {
    RootParentParse(p);
    ParentParse();
    ParseIgnoresDirectory(dir, "..");
  }

  /** `/..` splits into `.` and `.`. */
  lemma RootParentParse(p: string)
    requires IsRootParent(p)
    ensures Parse(p) == ParsedPath(".", ".")
  {
    RootParentSegment(p);
  }

  /** A bare `..` has no extension. */
  lemma ParentParse()
    ensures Parse("..") == ParsedPath("..", "")
  {
    assert StripTrailingSlashes("..") == "..";
    assert LastSegment("..") == "..";
  }

  /** Directories in front of a file name do not change its parse, except
      that `..` directly under the root is split as `IsRootParent` says. */
  lemma ParseIgnoresDirectory(dir: string, file: string)
    requires file != "" && '/' !in file
    requires dir != "" || file != ".."
    ensures Parse(dir + "/" + file) == Parse(file)
  {
    var p := dir + "/" + file;
    LastSegmentAfterSlash(dir, file);
    assert !IsRootParent(file) by {
      assert StripTrailingSlashes(file) == file;
    }
    assert !IsRootParent(p) by {
      assert StripTrailingSlashes(p) == p;
      assert p[|dir|] == '/';
    }
  }

  /** The last segment of `dir/file` is `file`. */
  lemma LastSegmentAfterSlash(dir: string, file: string)
    requires file != "" && '/' !in file
    ensures LastSegment(dir + "/" + file) == file
  {
    var p := dir + "/" + file;
    assert StripTrailingSlashes(p) == p;
    assert p[|dir|] == '/';
    var i := LastIndexOf(p, '/').value;
    assert i == |dir|;
    assert p[|dir| + 1..] == file;
  }
}
