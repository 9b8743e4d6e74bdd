/**
 * The converters that build a `Path` from a string: `fromQiniuPath` for the flat key space of
 * the object store, and `fromLocalPath` for the local file system.
 */
module Convert {
  import opened Wrappers
  import opened Strings
  import opened Paths

  /** The fields of Node's `path.parse` result that `fromLocalPath` reads. */
  datatype ParsedPath = ParsedPath(root: string, dir: string, base: string, ext: string)

  /**
   * `fromQiniuPath`: the separator is '/', there is no root, the whole key is split on '/',
   * and the last piece is dropped for a directory or becomes the basename for a file.
   * `extname` stands for Node's `path.extname`. The parent clause fixes the parent's string
   * exactly, since a prefix through the last separator is unique (`ThroughLastSeparatorUnique`).
   */
  method FromQiniuPath(pathStr: string, extname: string -> string) returns (r: Path)
    ensures r.sep == '/' && r.root == "" && r.WellFormed()
    ensures r.isDir <==> EndsWith(pathStr, '/')
    ensures var pieces := Split(pathStr, '/'); r.dirSegments == pieces[..|pieces| - 1]
    ensures r.DirectoryBasename().None? <==> '/' !in pathStr
    ensures !r.isDir ==> r.base.Some? && LastPiece(r.base.value, pathStr, '/')
    ensures r.ext.Some? <==> !r.isDir && r.base.value != ""
    ensures r.ext.Some? ==> r.ext.value == extname(r.base.value)
    ensures r.ToString() == pathStr
    ensures ThroughLastSeparator(
      r.ParentDirectoryPath().ToString(),
      if r.isDir then pathStr[..|pathStr| - 1] else pathStr,
      '/')
  {
    var sep := '/';
    var isDir := false;
    if EndsWith(pathStr, sep) {
      isDir := true;
    }
    var segments := Split(pathStr, sep);
    var basename: Option<string> := None;
    var ext: Option<string> := None;
    var last := segments[|segments| - 1];
    SplitSingle(pathStr, sep);
    if isDir {
      segments := segments[..|segments| - 1];
    } else {
      basename := Some(last);
      segments := segments[..|segments| - 1];
      if last != "" {
        ext := Some(extname(last));
      }
    }
    r := Path(sep, "", basename, ext, segments, isDir);
    if isDir {
      DirectoryRendering(pathStr, sep, r);
    } else {
      FileRendering(pathStr, sep, r);
    }
  }

  /** A root-less file built from the pieces of `s` renders as `s`; its parent, as `s` up to its last separator. */
  lemma FileRendering(s: string, c: char, p: Path)
    requires var xs := Split(s, c);
      p.sep == c && p.root == "" && !p.isDir &&
      p.dirSegments == xs[..|xs| - 1] && p.base == Some(xs[|xs| - 1])
    ensures p.ToString() == s
    ensures ThroughLastSeparator(p.ParentDirectoryPath().ToString(), s, c)
    ensures LastPiece(p.base.value, s, c)
  {
    SplitLastPiece(s, c);
    p.DirectoryRendersSegments();
    p.ParentDirectoryPath().DirectoryRendersSegments();
  }

  /**
   * A root-less directory built from the pieces of `s`, which ends with the separator, renders
   * as `s`; its parent, as `s` without that separator up to its last separator.
   */
  lemma DirectoryRendering(s: string, c: char, p: Path)
    requires EndsWith(s, c)
    requires var xs := Split(s, c);
      p.sep == c && p.root == "" && p.isDir && p.base.None? && p.dirSegments == xs[..|xs| - 1]
    ensures p.ToString() == s
    ensures ThroughLastSeparator(p.ParentDirectoryPath().ToString(), s[..|s| - 1], c)
  {
    var t := s[..|s| - 1];
    assert t + [c] == s;
    SplitTrailingSeparator(s, c);
    var xs := Split(t, c);
    assert p.dirSegments == xs;
    assert p.ToString() == s by {
      JoinSplit(t, c);
      EachTerminatedJoin(xs, c);
      p.DirectoryRendersSegments();
    }
    var q := p.ParentDirectoryPath();
    assert q.dirSegments == xs[..|xs| - 1];
    q.DirectoryRendersSegments();
    SplitLastPiece(t, c);
  }

  /**
   * `fromLocalPath`: the directory flag comes from the input's trailing separator; the segments
   * are the parsed `dir` without its `root` prefix, split on the separator; a directory's parsed
   * `base` is pushed as one more segment, a file keeps the parsed base and extension.
   */
  method FromLocalPath(pathStr: string, sep: char, parsed: ParsedPath) returns (r: Path)
    ensures r.sep == sep && r.root == parsed.root && r.WellFormed()
    ensures r.isDir <==> EndsWith(pathStr, sep)
    ensures r.isDir ==> r.dirSegments == Split(Substr(parsed.dir, |parsed.root|), sep) + [parsed.base]
    ensures !r.isDir ==>
      r.base == Some(parsed.base) && r.ext == Some(parsed.ext) &&
      r.dirSegments == Split(Substr(parsed.dir, |parsed.root|), sep)
    ensures r.DirectoryBasename().Some?
    ensures r.isDir ==> r.DirectoryBasename() == Some(parsed.base)
    ensures !r.isDir && Substr(parsed.dir, |parsed.root|) == "" ==> r.dirSegments == [""]
    ensures !r.isDir ==>
      r.ToString() == parsed.root + Substr(parsed.dir, |parsed.root|) + [sep] + parsed.base
  {
    var isDir := false;
    if EndsWith(pathStr, sep) {
      isDir := true;
    }
    var dirSegments := Split(Substr(parsed.dir, |parsed.root|), sep);
    var base := Some(parsed.base);
    var ext := Some(parsed.ext);
    if isDir {
      dirSegments := dirSegments + [parsed.base];
      base := None;
      ext := None;
    }
    r := Path(sep, parsed.root, base, ext, dirSegments, isDir);
    JoinSplit(Substr(parsed.dir, |parsed.root|), sep);
  }

  /**
   * A parse that rebuilds its input: `dir` starts with `root`, and the input is `dir`, a
   * separator when `dir` goes beyond the root, `base`, and the trailing separator if there is
   * one. Node's parse of a root-only input ("/", root and dir "/", base "") or of an input with
   * doubled separators does not have this shape.
   */
  predicate ConsistentParse(pathStr: string, sep: char, parsed: ParsedPath) {
    parsed.root <= parsed.dir &&
    pathStr == parsed.dir + (if |parsed.dir| > |parsed.root| then [sep] else []) + parsed.base +
      (if EndsWith(pathStr, sep) then [sep] else [])
  }

  /**
   * `fromLocalPath` as written renders the relative file "file" (parsed as root "", dir "",
   * base "file") as "/file", and reports "" as its directory basename: the empty remainder
   * after the root still splits into one empty segment.
   */
  method LocalFileCounterexample() returns (pathStr: string, parsed: ParsedPath, r: Path)
    ensures ConsistentParse(pathStr, '/', parsed)
    ensures r.ToString() == "/" + pathStr && r.ToString() != pathStr
    ensures r.DirectoryBasename() == Some("")
  {
    pathStr := "file";
    parsed := ParsedPath("", "", "file", "");
    r := FromLocalPath(pathStr, '/', parsed);
  }

  /**
   * `fromLocalPath` with the empty remainder yielding no segment at all: the same as
   * `FromLocalPath` except that a lone empty segment is dropped, after which a consistent
   * parse renders back to the input.
   */
  method FromLocalPathIntended(pathStr: string, sep: char, parsed: ParsedPath) returns (r: Path)
    ensures r.sep == sep && r.root == parsed.root && r.WellFormed()
    ensures r.isDir <==> EndsWith(pathStr, sep)
    ensures !r.isDir ==> r.base == Some(parsed.base) && r.ext == Some(parsed.ext)
    ensures r.isDir ==> r.DirectoryBasename() == Some(parsed.base)
    ensures !r.isDir && Substr(parsed.dir, |parsed.root|) == "" ==> r.DirectoryBasename().None?
    ensures var rest := Substr(parsed.dir, |parsed.root|);
      r.dirSegments == (if rest == "" then [] else Split(rest, sep)) + (if r.isDir then [parsed.base] else [])
    ensures ConsistentParse(pathStr, sep, parsed) ==> r.ToString() == pathStr
  {
    var isDir := false;
    if EndsWith(pathStr, sep) {
      isDir := true;
    }
    var rest := Substr(parsed.dir, |parsed.root|);
    var dirSegments := Split(rest, sep);
    JoinSplit(rest, sep);
    if dirSegments == [""] {
      dirSegments := [];
    }
    var base := Some(parsed.base);
    var ext := Some(parsed.ext);
    if isDir {
      dirSegments := dirSegments + [parsed.base];
      base := None;
      ext := None;
    }
    r := Path(sep, parsed.root, base, ext, dirSegments, isDir);
    if ConsistentParse(pathStr, sep, parsed) {
      LocalRendering(pathStr, sep, parsed, r);
    }
  }

  /**
   * The segments of a non-empty remainder after the root, each with its separator, render as
   * that remainder and one separator; an empty remainder gives no segment and renders as "".
   */
  lemma RemainderRendering(parsed: ParsedPath, sep: char)
    requires parsed.root <= parsed.dir
    ensures var rest := Substr(parsed.dir, |parsed.root|);
      var front := if rest == "" then [] else Split(rest, sep);
      var lead := if rest == "" then "" else rest + [sep];
      EachTerminated(front, sep) == lead &&
      parsed.dir + (if |parsed.dir| > |parsed.root| then [sep] else []) == parsed.root + lead
  {
    var rest := Substr(parsed.dir, |parsed.root|);
    assert parsed.dir == parsed.root + rest;
    if rest != "" {
      JoinSplit(rest, sep);
      EachTerminatedJoin(Split(rest, sep), sep);
    }
  }

  /** A path built from a consistent parse, with no segment for an empty remainder, renders as the input. */
  lemma LocalRendering(pathStr: string, sep: char, parsed: ParsedPath, p: Path)
    requires ConsistentParse(pathStr, sep, parsed)
    requires var rest := Substr(parsed.dir, |parsed.root|);
      var front := if rest == "" then [] else Split(rest, sep);
      p.sep == sep && p.root == parsed.root && (p.isDir <==> EndsWith(pathStr, sep)) &&
      (p.isDir ==> p.base.None? && p.dirSegments == front + [parsed.base]) &&
      (!p.isDir ==> p.base == Some(parsed.base) && p.dirSegments == front)
    ensures p.ToString() == pathStr
  {
    var rest := Substr(parsed.dir, |parsed.root|);
    var front := if rest == "" then [] else Split(rest, sep);
    var lead := if rest == "" then "" else rest + [sep];
    RemainderRendering(parsed, sep);
    if p.isDir {
      EachTerminatedConcat(front, [parsed.base], sep);
      assert EachTerminated([parsed.base], sep) == parsed.base + [sep];
      assert p.Directory() == parsed.root + (lead + (parsed.base + [sep]));
      assert pathStr == parsed.root + (lead + (parsed.base + [sep]));
    } else {
      assert p.Directory() == parsed.root + lead;
      assert pathStr == (parsed.root + lead) + parsed.base;
    }
  }
}
