/**
 * What the server does with one entry of the directory walk: a directory is
 * passed over; a file is skipped when a segment of its directory part matches
 * the exclusion pattern; otherwise it is bound to a route, `/` followed by its
 * path, or by its directory when the file is an `index.html`. The pattern is
 * an arbitrary predicate on segments: regular-expression matching is not
 * part of this model.
 */
module Routes {
  import opened Options
  import opened Strings
  import opened ContentTypes

  /** The path separator of the platform (`filepath.Separator` on Unix). */
  const Separator := '/'

  /** A directory's index page, served at the directory's own route. */
  const IndexFile := "index.html"

  /**
   * One entry reported by the walk, and whether it names a directory. The
   * path is `filepath.Join` of the walk's root and the entry's path below it,
   * which cleans the result: the root `.` leaves no segment of its own, while
   * a root such as `site` or `../site` heads every path.
   */
  datatype WalkEntry = WalkEntry(path: string, isDir: bool)

  /** What a route serves: the file's path and the content type chosen for it. */
  datatype Endpoint = Endpoint(path: string, contentType: string)

  /** A route together with the endpoint registered under it. */
  datatype Binding = Binding(route: string, endpoint: Endpoint)

  /** A directory part: empty, or ending with the separator. */
  predicate IsDirPart(dir: string) {
    dir == "" || dir[|dir| - 1] == Separator
  }

  /**
   * `filepath.Split`: the path up to and including its last separator, and
   * the file name after it.
   */
  function SplitPath(path: string): (parts: (string, string))
    ensures parts.0 + parts.1 == path
    ensures IsDirPart(parts.0)
    ensures Separator !in parts.1
  {
    var i := LastIndexOf(path, Separator);
    var dir, file := path[..i + 1], path[i + 1..];
    assert path == dir + file;
    assert 0 <= i ==> dir[|dir| - 1] == path[i];
    (dir, file)
  }

  /** The split is the only one into a directory part and a separator-free name. */
  lemma SplitPathUnique(dir: string, file: string)
    requires IsDirPart(dir) && Separator !in file
    ensures SplitPath(dir + file) == (dir, file)
  {
    var path := dir + file;
    assert path[|dir|..] == file;
    if dir != "" {
      LastIndexOfUnique(path, Separator, |dir| - 1);
      assert path[..|dir|] == dir;
    } else {
      assert path == file;
    }
  }

  /** A directory part has an empty file name. */
  lemma DirPartHasNoFile(dir: string)
    requires IsDirPart(dir)
    ensures SplitPath(dir) == (dir, "")
  {
    SplitPathUnique(dir, "");
    assert dir + "" == dir;
  }

  /** The route of a file: its directory for an `index.html`, the file's own path otherwise. */
  function Route(path: string): (route: string)
    ensures |route| > 0 && route[0] == Separator
    ensures route[1..] <= path
  {
    var (dir, file) := SplitPath(path);
    if file == IndexFile then "/" + dir else "/" + path
  }

  /** An index page is served at its directory's route. */
  lemma RouteOfIndex(dir: string)
    requires IsDirPart(dir)
    ensures Route(dir + IndexFile) == "/" + dir
  {
    SplitPathUnique(dir, IndexFile);
  }

  /** Any other file is served at its own path. */
  lemma RouteOfFile(dir: string, file: string)
    requires IsDirPart(dir) && Separator !in file && file != IndexFile
    ensures Route(dir + file) == "/" + dir + file
  {
    SplitPathUnique(dir, file);
  }

  /**
   * Distinct files get distinct routes: an index page's route is a directory
   * part, which is never the path of a file (a path that is neither empty
   * nor ends with the separator).
   */
  lemma RouteInjective(p: string, q: string)
    requires !IsDirPart(p) && !IsDirPart(q)
    requires Route(p) == Route(q)
    ensures p == q
  {
    var (dp, fp) := SplitPath(p);
    var (dq, fq) := SplitPath(q);
    assert Route(p)[1..] == Route(q)[1..];
    if fp == IndexFile && fq == IndexFile {
      assert dp == dq;
    }
  }

  /** The file is skipped when some segment of its directory part matches the pattern. */
  predicate Excluded(dir: string, excluded: string -> bool) {
    exists segment :: segment in Split(dir, Separator) && excluded(segment)
  }

  /**
   * The segment loop: tests the directory part's segments in order and stops
   * at the first that matches.
   */
  method SkipFolder(dir: string, excluded: string -> bool) returns (skip: bool)
    ensures skip <==> Excluded(dir, excluded)
  {
    var folders := Split(dir, Separator);
    for i := 0 to |folders|
      invariant forall k :: 0 <= k < i ==> !excluded(folders[k])
    {
      if excluded(folders[i]) {
        return true;
      }
    }
    return false;
  }

  /**
   * What the walk's callback registers for one entry, if anything: nothing
   * for a directory or an excluded file; otherwise the file's route bound to
   * its path and the content type of its name.
   */
  function Registration(entry: WalkEntry, excluded: string -> bool): (reg: Option<Binding>)
    ensures reg.Some? ==> reg.value.endpoint.path == entry.path && |reg.value.route| > 0 && reg.value.route[0] == Separator
    ensures reg.Some? ==> ServedType(reg.value.endpoint.contentType) && reg.value.endpoint.contentType != ""
  {
    var (dir, file) := SplitPath(entry.path);
    if entry.isDir || Excluded(dir, excluded) then None
    else Some(Binding(Route(entry.path), Endpoint(entry.path, ContentType(file))))
  }

  /**
   * A file is registered exactly when it is not a directory and no segment of
   * its directory part is excluded; it is then bound at its route to its own
   * path and the content type of its name.
   */
  lemma RegistrationOfFile(dir: string, file: string, excluded: string -> bool)
    requires IsDirPart(dir) && Separator !in file
    ensures Registration(WalkEntry(dir + file, true), excluded) == None
    ensures Registration(WalkEntry(dir + file, false), excluded).Some? <==> !Excluded(dir, excluded)
    ensures !Excluded(dir, excluded) ==>
              Registration(WalkEntry(dir + file, false), excluded)
                == Some(Binding(if file == IndexFile then "/" + dir else "/" + dir + file,
                                Endpoint(dir + file, ContentType(file))))
  {
    SplitPathUnique(dir, file);
    if file == IndexFile {
      RouteOfIndex(dir);
    } else {
      RouteOfFile(dir, file);
    }
  }

  /** The pattern only ever sees the directory part's segments, never the file name. */
  lemma OnlyFoldersAreTested(entry: WalkEntry, excluded: string -> bool, other: string -> bool)
    requires forall segment :: segment in Split(SplitPath(entry.path).0, Separator) ==> (excluded(segment) <==> other(segment))
    ensures Registration(entry, excluded) == Registration(entry, other)
  {
    var dir := SplitPath(entry.path).0;
    assert Excluded(dir, excluded) <==> Excluded(dir, other);
  }

  /** A folder named in a directory part is one of its segments. */
  lemma FolderIsSegment(parent: string, folder: string, sub: string)
    requires IsDirPart(parent) && Separator !in folder
    ensures folder in Split(parent + folder + [Separator] + sub, Separator)
  {
    if parent == "" {
      assert parent + folder + [Separator] + sub == folder + [Separator] + sub;
      SplitFindsFirstPiece(folder, Separator, sub);
    } else {
      var above := parent[..|parent| - 1];
      assert parent + folder + [Separator] + sub == above + [Separator] + folder + [Separator] + sub;
      SplitFindsInnerPiece(above, folder, Separator, sub);
    }
  }

  /** The directory part of a file beneath a folder has that folder as a segment. */
  lemma FolderAboveFile(parent: string, folder: string, rest: string)
    requires IsDirPart(parent) && Separator !in folder
    ensures folder in Split(SplitPath(parent + folder + "/" + rest).0, Separator)
  {
    var (sub, file) := SplitPath(rest);
    var dir := parent + folder + [Separator] + sub;
    assert parent + folder + "/" + rest == dir + file;
    SplitPathUnique(dir, file);
    FolderIsSegment(parent, folder, sub);
  }

  /** An excluded folder hides every file beneath it, however deep. */
  lemma ExcludedFolderHidesSubtree(parent: string, folder: string, rest: string, isDir: bool, excluded: string -> bool)
    requires IsDirPart(parent) && Separator !in folder && excluded(folder)
    ensures Registration(WalkEntry(parent + folder + "/" + rest, isDir), excluded) == None
  {
    FolderAboveFile(parent, folder, rest);
    assert Excluded(SplitPath(parent + folder + "/" + rest).0, excluded);
  }

  /** The last segment of a directory part is the empty one after its final separator. */
  lemma EmptySegmentIsLast(dir: string)
    requires IsDirPart(dir)
    ensures "" in Split(dir, Separator)
  {
    if dir != "" {
      var above := dir[..|dir| - 1];
      assert dir == above + [Separator] + "";
      SplitAround(above, Separator, "");
      assert Split("", Separator) == [""];
    }
  }

  /**
   * The empty segment is always tested (for a file at the top of the walk
   * it is the whole empty directory part), so a pattern that matches the
   * empty string excludes every file.
   */
  lemma EmptyMatchExcludesAll(entry: WalkEntry, excluded: string -> bool)
    requires excluded("")
    ensures Registration(entry, excluded) == None
  {
    EmptySegmentIsLast(SplitPath(entry.path).0);
  }

  /** The default pattern `^\.`: a segment that starts with a dot. */
  predicate DotPrefixed(segment: string) {
    |segment| > 0 && segment[0] == '.'
  }

  /** Under the default pattern a hidden folder hides its contents. */
  lemma HiddenFolderExample()
    ensures Registration(WalkEntry(".git/config", false), DotPrefixed) == None
  {
    assert ".git/config" == "" + ".git" + "/" + "config";
    ExcludedFolderHidesSubtree("", ".git", "config", false, DotPrefixed);
  }

  /** Under the default pattern a hidden file in a visible folder is served. */
  lemma HiddenFileExample()
    ensures Registration(WalkEntry("site/" + ".env", false), DotPrefixed).Some?
  {
    SplitAround("site", Separator, "");
    SplitWithoutSeparator("site", Separator);
    assert "site/" == "site" + [Separator] + "";
    assert Split("site/", Separator) == ["site", ""];
    RegistrationOfFile("site/", ".env", DotPrefixed);
  }

  /**
   * The root's segments are tested like any other: under the default pattern
   * a walk started at `../site` serves nothing, because `..` starts with a dot.
   */
  lemma ParentRootHidesAll(rest: string, isDir: bool)
    ensures Registration(WalkEntry("../site/" + rest, isDir), DotPrefixed) == None
  {
    assert "../site/" + rest == "" + ".." + "/" + ("site/" + rest);
    ExcludedFolderHidesSubtree("", "..", "site/" + rest, isDir, DotPrefixed);
  }

  /**
   * With the default root `.`, cleaned away by `filepath.Join`, every file at
   * the top of the walk other than `index.html` is served under the default
   * pattern at `/` followed by its name: the top has no folder to test.
   */
  lemma TopLevelFileExample(file: string)
    requires Separator !in file && file != IndexFile
    ensures Registration(WalkEntry(file, false), DotPrefixed) == Some(Binding("/" + file, Endpoint(file, ContentType(file))))
  {
    assert Split("", Separator) == [""];
    RegistrationOfFile("", file, DotPrefixed);
    assert "" + file == file;
  }
}
