/**
 * The structured path value: a separator, a root prefix, the directory segments between them
 * and the basename, an optional basename and extension, and a directory flag. Every field is
 * read-only, so the value is a datatype and each derivation returns a new one.
 */
module Paths {
  import opened Wrappers
  import opened Strings

  /** The message `join` fails with when the receiver denotes a file. */
  const JoinOnFileMessage := "Cannot join path for File"

  /**
   * `sep` is one character; `base` and `ext` are absent (`None`) for a directory.
   * The accessors `basename()` and `extname()` are the destructors `base` and `ext`.
   */
  datatype Path = Path(
    sep: char,
    root: string,
    base: Option<string>,
    ext: Option<string>,
    dirSegments: seq<string>,
    isDir: bool)
  {
    /** The shape every public operation produces: a directory exactly when there is no basename. */
    predicate WellFormed() {
      (isDir <==> base.None?) && (base.None? ==> ext.None?)
    }

    /** The last directory segment, absent only when there are no segments; "" is a present value. */
    function DirectoryBasename(): (r: Option<string>)
      ensures r.None? <==> dirSegments == []
      ensures r.Some? ==> dirSegments == dirSegments[..|dirSegments| - 1] + [r.value]
    {
      if |dirSegments| > 0 then Some(dirSegments[|dirSegments| - 1]) else None
    }

    /** The root, then the segments joined by the separator and one more separator if there are any. */
    function Directory(): (r: string)
      ensures r == root + EachTerminated(dirSegments, sep)
    {
      if |dirSegments| > 0 then EachTerminatedJoin(dirSegments, sep); root + Join(dirSegments, sep) + [sep] else root
    }

    /** The directory part followed by the basename; an empty basename is falsy and adds nothing. */
    function ToString(): (r: string)
      ensures root <= r
      ensures base.Some? ==> r == Directory() + base.value
      ensures base.None? ==> r == Directory()
    {
      var fullPath := Directory();
      if base.Some? && base.value != "" then fullPath + base.value else fullPath
    }

    /**
     * The directory one level up: a file's own directory, or a directory without its last
     * segment (`slice(0, length - 1)` of an empty list is empty).
     */
    function ParentDirectoryPath(): (r: Path)
      ensures r.sep == sep && r.root == root
      ensures r.isDir && r.base.None? && r.ext.None? && r.WellFormed()
      ensures !isDir ==> r.dirSegments == dirSegments
      ensures isDir && dirSegments == [] ==> r.dirSegments == []
      ensures isDir && dirSegments != [] ==> r.dirSegments + [dirSegments[|dirSegments| - 1]] == dirSegments
    {
      if isDir then
        var segments := if |dirSegments| > 0 then dirSegments[..|dirSegments| - 1] else [];
        Path(sep, root, None, None, segments, true)
      else
        Path(sep, root, None, None, dirSegments, true)
    }

    /**
     * The private `join`: split `pathStr` on the separator and append all pieces but the last
     * to the segments; the last piece is the basename unless `pathStr` ends with the separator.
     * `extname` stands for Node's `path.extname`, applied only to a non-empty basename.
     */
    function JoinPath(pathStr: string, extname: string -> string): (r: Result<Path>)
      ensures r.Err? <==> !isDir
      ensures r.Err? ==> r.error == JoinOnFileMessage
      ensures r.Ok? ==> r.value.sep == sep && r.value.root == root
      ensures r.Ok? ==> dirSegments <= r.value.dirSegments
      ensures r.Ok? ==> var xs := Split(pathStr, sep); r.value.dirSegments == dirSegments + xs[..|xs| - 1]
      ensures r.Ok? && r.value.base.Some? ==> (r.value.ext.Some? <==> r.value.base.value != "")
      ensures r.Ok? ==> r.value.WellFormed() && (r.value.isDir <==> EndsWith(pathStr, sep))
      ensures r.Ok? && r.value.ext.Some? ==>
        r.value.base.Some? && r.value.base.value != "" && r.value.ext.value == extname(r.value.base.value)
      ensures r.Ok? && r.value.base.Some? ==> LastPiece(r.value.base.value, pathStr, sep)
    {
      if isDir then
        var segments := Split(pathStr, sep);
        var last := |segments| - 1;
        if EndsWith(pathStr, sep) then
          Ok(Path(sep, root, None, None, dirSegments + segments[..last], true))
        else
          var base := segments[last];
          var ext := if base != "" then Some(extname(base)) else None;
          SplitLastPiece(pathStr, sep);
          Ok(Path(sep, root, Some(base), ext, dirSegments + segments[..last], false))
      else
        Err(JoinOnFileMessage)
    }

    /**
     * `joinFile`: strip every trailing separator, then join; the result is always a file
     * (when the receiver is a directory).
     */
    method JoinFile(pathStr: string, extname: string -> string) returns (r: Result<Path>)
      ensures r == JoinPath(TrimTrailing(pathStr, sep), extname)
      ensures r.Err? <==> !isDir
      ensures r.Ok? ==> !r.value.isDir && r.value.base.Some?
      ensures isDir && base.None? ==> r.Ok? && r.value.ToString() == ToString() + TrimTrailing(pathStr, sep)
    {
      var s := pathStr;
      while EndsWith(s, sep)
        invariant TrimTrailing(s, sep) == TrimTrailing(pathStr, sep)
        decreases |s|
      {
        s := s[..|s| - 1];
      }
      r := JoinPath(s, extname);
      if isDir && base.None? {
        JoinPathToString(s, extname);
      }
    }

    /**
     * `joinFolder`: add a separator only when one is missing, then join; the result is
     * always a directory (when the receiver is a directory).
     */
    function JoinFolder(pathStr: string, extname: string -> string): (r: Result<Path>)
      ensures r.Err? <==> !isDir
      ensures r.Ok? ==> r.value.isDir && r.value.base.None? && r.value.ext.None?
      ensures isDir && base.None? ==>
        r.Ok? && r.value.ToString() == ToString() + pathStr + (if EndsWith(pathStr, sep) then "" else [sep])
    {
      var s := if EndsWith(pathStr, sep) then pathStr else pathStr + [sep];
      if isDir && base.None? then JoinPathToString(s, extname); JoinPath(s, extname)
      else JoinPath(s, extname)
    }

    /** The rendered directory part is the root followed by every segment, each with its separator. */
    lemma DirectoryRendersSegments()
      ensures Directory() == root + EachTerminated(dirSegments, sep)
    {
      if |dirSegments| > 0 {
        EachTerminatedJoin(dirSegments, sep);
      }
    }

    /** Joining onto a directory appends exactly `pathStr` to its rendered string. */
    lemma JoinPathToString(pathStr: string, extname: string -> string)
      requires isDir && base.None?
      ensures JoinPath(pathStr, extname).Ok?
      ensures JoinPath(pathStr, extname).value.ToString() == ToString() + pathStr
    {
      var r := JoinPath(pathStr, extname).value;
      var xs := Split(pathStr, sep);
      var init, last := xs[..|xs| - 1], xs[|xs| - 1];
      SplitLastPiece(pathStr, sep);
      if EndsWith(pathStr, sep) {
        SplitTrailingSeparator(pathStr, sep);
      }
      AppendRendersSuffix(this, r, init, last);
    }
  }

  /**
   * A path whose segments extend a directory's by `init` and whose basename is `last`
   * (or absent, with `last` empty) renders as the directory followed by `init` and `last`.
   */
  lemma AppendRendersSuffix(d: Path, r: Path, init: seq<string>, last: string)
    requires d.base.None? && r.sep == d.sep && r.root == d.root
    requires r.dirSegments == d.dirSegments + init
    requires r.base == Some(last) || (r.base.None? && last == "")
    ensures r.ToString() == d.ToString() + (EachTerminated(init, d.sep) + last)
  {
    d.DirectoryRendersSegments();
    r.DirectoryRendersSegments();
    EachTerminatedConcat(d.dirSegments, init, d.sep);
  }

  /** The parent of the file `joinFile(a + sep + b)` is the folder `joinFolder(a)`. */
  lemma JoinFileParentIsJoinFolder(d: Path, a: string, b: string, extname: string -> string)
    requires d.isDir
    requires !EndsWith(a, d.sep) && b != "" && d.sep !in b
    ensures d.JoinPath(TrimTrailing(a + [d.sep] + b, d.sep), extname).Ok?
    ensures d.JoinPath(TrimTrailing(a + [d.sep] + b, d.sep), extname).value.ParentDirectoryPath()
         == d.JoinFolder(a, extname).value
  {
    var c := d.sep;
    var s := a + [c] + b;
    assert !EndsWith(s, c) by {
      assert s[|s| - 1] == b[|b| - 1];
    }
    SplitConcat(a, b, c);
    SplitNoSeparator(b, c);
    assert Split(s, c)[..|Split(s, c)| - 1] == Split(a, c);
    SplitTrailingSeparator(a + [c], c);
    assert (a + [c])[..|a|] == a;
  }

  /** Joining a single folder and taking the parent gives the directory back. */
  lemma ParentOfJoinFolder(d: Path, x: string, extname: string -> string)
    requires d.WellFormed() && d.isDir && d.sep !in x
    ensures d.JoinFolder(x, extname).Ok?
    ensures d.JoinFolder(x, extname).value.DirectoryBasename() == Some(x)
    ensures d.JoinFolder(x, extname).value.ParentDirectoryPath() == d
  {
    var c := d.sep;
    assert !EndsWith(x, c) by {
      if x != [] { assert x[|x| - 1] in x; }
    }
    SplitTrailingSeparator(x + [c], c);
    assert (x + [c])[..|x|] == x;
    SplitNoSeparator(x, c);
    var xs := Split(x + [c], c);
    assert xs == [x, ""];
    var j := d.JoinPath(x + [c], extname).value;
    assert j.dirSegments == d.dirSegments + [x];
    assert j.isDir && j.sep == c && j.root == d.root;
    assert (d.dirSegments + [x])[..|d.dirSegments|] == d.dirSegments;
  }

  /** A path's string is its parent's string followed by the basename or the last segment. */
  lemma ParentToString(p: Path)
    requires p.WellFormed()
    ensures !p.isDir ==> p.ToString() == p.ParentDirectoryPath().ToString() + p.base.value
    ensures p.isDir && p.dirSegments != [] ==>
      p.ToString() == p.ParentDirectoryPath().ToString() + p.dirSegments[|p.dirSegments| - 1] + [p.sep]
  {
    var q := p.ParentDirectoryPath();
    p.DirectoryRendersSegments();
    q.DirectoryRendersSegments();
    if p.isDir && p.dirSegments != [] {
      var n := |p.dirSegments|;
      EachTerminatedConcat(q.dirSegments, [p.dirSegments[n - 1]], p.sep);
    }
  }

  /** `joinFile("file")` and `joinFile("file/")` agree. */
  lemma JoinFileIgnoresTrailingSeparator(d: Path, s: string, extname: string -> string)
    ensures d.JoinPath(TrimTrailing(s + [d.sep], d.sep), extname) == d.JoinPath(TrimTrailing(s, d.sep), extname)
  {
    TrimTrailingAbsorbs(s, d.sep);
  }

  /** `joinFolder("dir")` and `joinFolder("dir/")` agree. */
  lemma JoinFolderIgnoresTrailingSeparator(d: Path, s: string, extname: string -> string)
    requires !EndsWith(s, d.sep)
    ensures d.JoinFolder(s + [d.sep], extname) == d.JoinFolder(s, extname)
  {
  }
}
