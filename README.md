# qiniu-path in Dafny

A model of the path value of `qiniu-path` and the two functions that build it from strings.

A `Path` holds a separator character, a root prefix, the directory segments, an optional
basename, an optional extension and a directory flag. It renders itself back to a string and
derives related paths: the parent directory, a child file and a child folder. `fromQiniuPath`
parses an object-store key. That key space is flat: `'/'` only delimits pieces, so leading and
doubled separators survive as empty segments. `fromLocalPath` parses a local file-system path
from the result of Node's `path.parse`.

The core is `Split`/`Join`, which follow JavaScript's `split` and `join` for a one-character
separator. Every piece is kept, empty ones included, so `Join(Split(s, c), c) == s`. From that
comes the main result: `FromQiniuPath` followed by `ToString` gives back the key exactly.

Files:
- `wrappers.dfy`: `Option` in place of `undefined`, and `Result` in place of the thrown error.
- `strings.dfy`: `Split`, `Join`, `EndsWith`, `Substr`, the trailing-separator trim, and their lemmas.
- `path.dfy`: the `Path` datatype (`src/path.ts`) with its operations and lemmas.
- `convert.dfy`: `FromQiniuPath` and `FromLocalPath` (`src/convert.ts`), and the finding below.

Modelling choices:
- Every field of the source class is read-only, so `Path` is a datatype. Each derivation
  returns a new value.
- `basename()` and `extname()` are the datatype's `base` and `ext` fields.
- `joinFile` strips separators in a `while` loop, so it is a method. It is proved against
  `TrimTrailing` and the private `join`, which is `JoinPath` here.
- The two converters are methods, because the source builds their results step by step. Each
  method's `ensures` states everything the source promises about its result.
- Node's `path.extname` is a parameter `extname: string -> string`.
- Node's `path.parse` is a `ParsedPath` record parameter.
- The host separator `path.sep` is a parameter `sep: char`.
- JavaScript truthiness is written out. `if (base)` is false for `""`, so an empty basename adds
  nothing to the string and gets no extension.
- `slice(0, length - 1)` on an empty list gives an empty list.

Where the tests and the code disagree, the model follows the code:
- `test/convert.ts:4` imports `fromPosixPath` and `fromWin32Path`, which `src/convert.ts` does not
  define; it has one `fromLocalPath` over the host separator.
- Their tests at `test/convert.ts:95` and `test/convert.ts:104` expect no segment for an empty
  remainder after the root, but `fromLocalPath` keeps one (see Findings). The tests in
  `test/convert.ts:84-158` are therefore not stated as properties of `FromLocalPath`.

## Model

| member | source | states |
|---|---|---|
| `Strings.Split` | src/convert.ts:28 | JavaScript `split` for one character: never empty, no piece contains the separator, empty pieces kept |
| `Strings.JoinSplit` | src/path.ts:26 | joining the pieces of a split gives the string back exactly |
| `Strings.SplitJoin` | src/path.ts:65 | splitting a join of separator-free pieces gives the pieces back |
| `Strings.SplitConcat` | src/path.ts:65 | splitting `a + sep + b` gives the pieces of `a` followed by the pieces of `b` |
| `Strings.SplitLastPiece` | src/convert.ts:28-37 | the last piece is the text after the last separator; the others, each followed by a separator, are the text up to and including it |
| `Strings.SplitSingle` | src/convert.ts:28 | a split has one piece exactly when the separator does not occur |
| `Strings.SplitTrailingSeparator` | src/convert.ts:25-32 | a string ending in the separator splits into the pieces before it plus one empty piece |
| `Strings.Substr` | src/convert.ts:11 | `substr(start)` is the rest of the string after `start`, or "" past its end |
| `Strings.TrimTrailing` | src/path.ts:50-52 | the result is a prefix that does not end with the separator, and only separators were removed |
| `Strings.TrimTrailingAbsorbs` | src/path.ts:50-52 | one more trailing separator does not change the trimmed string |
| `Strings.EachTerminatedJoin` | src/path.ts:25-26 | the segments joined, plus one separator, equal each segment followed by its own separator |
| `Paths.Path.DirectoryBasename` | src/path.ts:16-22 | the last segment; absent exactly when there are no segments; "" is a present value |
| `Paths.Path.ToString` | src/path.ts:32-38 | starts with the root; is the directory part followed by the basename |
| `Paths.Path.Directory` | src/path.ts:24-30 | the root followed by every segment, each with its separator |
| `Paths.Path.DirectoryRendersSegments` | src/path.ts:24-30 | the directory part is the root followed by every segment, each with its separator |
| `Paths.Path.ParentDirectoryPath` | src/path.ts:40-47 | a well-formed directory with the same separator and root; a file keeps its segments; a directory loses exactly its last segment; no segments stay none |
| `Paths.ParentToString` | src/path.ts:32-47 | a path renders as its parent followed by the basename, or followed by the last segment and a separator |
| `Paths.Path.JoinPath` | src/path.ts:63-83 | fails with "Cannot join path for File" exactly when the receiver is a file; otherwise keeps separator and root, appends the split pieces of the argument without the last one to the segments, is a directory exactly when the argument ends with the separator, takes the basename from the last piece, and gives a basename an extension exactly when it is non-empty |
| `Paths.Path.JoinPathToString` | src/path.ts:63-79 | joining onto a directory renders as the directory's string followed by the argument |
| `Paths.AppendRendersSuffix` | src/path.ts:24-38 | extending the segments by `init` and setting basename `last` appends the rendered `init` and `last` |
| `Paths.Path.JoinFile` | src/path.ts:49-54 | equals `join` of the argument with every trailing separator stripped; fails exactly on a file; otherwise gives a file rendered as the directory's string plus the trimmed argument |
| `Paths.Path.JoinFolder` | src/path.ts:56-61 | fails exactly on a file; otherwise gives a directory with no basename or extension, rendered as the directory's string plus the argument plus a separator if it lacked one |
| `Paths.JoinFileParentIsJoinFolder` | src/path.ts:40-79 | for a directory, the parent of `joinFile(a + sep + b)` is exactly `joinFolder(a)` |
| `Paths.ParentOfJoinFolder` | src/path.ts:40-61 | joining one folder names it as the directory basename, and taking the parent gives the original directory back |
| `Paths.JoinFileIgnoresTrailingSeparator` | src/path.ts:49-54 | `joinFile("file")` and `joinFile("file/")` agree |
| `Paths.JoinFolderIgnoresTrailingSeparator` | src/path.ts:56-61 | `joinFolder("dir")` and `joinFolder("dir/")` agree |
| `Convert.FromQiniuPath` | src/convert.ts:22-40 | separator '/' and root ""; a directory exactly when the key ends with '/'; segments are the pieces without the last one; no directory basename exactly when there is no '/'; the basename is the text after the last '/'; an extension only for a non-empty basename; renders back to the key; the parent renders as the key, without a directory's trailing '/', up to and including its last '/' |
| `Convert.FileRendering` | src/convert.ts:28-39 | a file built from the pieces of a key renders as the key, and its parent as the key up to its last separator |
| `Convert.DirectoryRendering` | src/convert.ts:25-33 | a directory built from the pieces of a key ending in '/' renders as the key, and its parent as the key without the '/' up to its last separator |
| `Convert.FromLocalPath` | src/convert.ts:4-20 | separator and root from the platform and the parse; a directory exactly when the input ends with the separator; segments are the split remainder after the root, plus the parsed base for a directory; a file copies base and extension; the directory basename is always present; a file renders as root, remainder, separator, basename |
| `Convert.LocalFileCounterexample` | src/convert.ts:10-19 | for "file" parsed as root "", dir "", base "file", the result renders as "/file" and has directory basename "" |
| `Convert.FromLocalPathIntended` | src/convert.ts:4-20 | as `fromLocalPath`, with the segments stated: the split remainder after the root, or none when that remainder is empty, plus the parsed base for a directory; a consistent parse renders back to the input |
| `Convert.RemainderRendering` | src/convert.ts:11 | the split remainder after the root, each piece with its separator, renders as the remainder plus one separator, or as "" with no segment for an empty remainder |
| `Convert.LocalRendering` | src/convert.ts:11-19 | a path built from a consistent parse, with no segment for an empty remainder, renders as the input |

## Left out

- Node's `path.parse` and `path.extname` are not modelled. Their root, drive, UNC and extension
  rules depend on the platform. `extname` is a function parameter and the parse result is a record
  parameter.
- `FromLocalPath` does not tie the `ParsedPath` record to the input string, because Node's parser
  is not modelled. `ConsistentParse` states the expected shape only for the corrected member.
- Convert.FromLocalPathIntended: its round trip is proved only for inputs where `ConsistentParse` holds. That leaves out a root-only input such as "/" or "C:\" (parsed with dir equal to root and base ""), for which the corrected member renders "//" or "C:\\". It also leaves out inputs with doubled separators such as "//file" or "dir1//", which Node's parser collapses.
- Choosing `path.sep` by platform is not modelled; the separator is a parameter.
- The tests' `uncaughtException` handler and its write to standard error are I/O and are left out.
- The POSIX and Windows test expectations (`test/convert.ts:84-158`) are not properties. They call
  `fromPosixPath` and `fromWin32Path`, which the shown source does not define.
- JavaScript exceptions become a `Result` value, `Err("Cannot join path for File")`.
- JavaScript strings are sequences of UTF-16 code units; the model uses Dafny `char` sequences.
- The public constructor accepts any combination of fields, and so does the datatype.
  `WellFormed` is the shape every operation produces. It is not a restriction on the type.

## Findings

| source | as written | input that shows it | evidently intended | confidence | as-written member | corrected member |
|---|---|---|---|---|---|---|
| src/convert.ts:11 | the remainder of `parsed.dir` after the root is always split, so an empty remainder yields the segment list `[""]` | `fromLocalPath("file")` on POSIX, where `path.parse` gives root "", dir "", base "file": `toString()` is "/file" and `directoryBasename()` is "" | an empty remainder yields no segment, so the result renders as "file" and has no directory basename, as `test/convert.ts:95` and `test/convert.ts:104` expect | high on the code's logic; not executed | `Convert.LocalFileCounterexample` | `Convert.FromLocalPathIntended` |
