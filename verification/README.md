# Tree materializer of generate-docs.js, in Dafny

`generate-docs.js` reads a tree of `folder` and `page` nodes and writes it out
as Markdown files under the output root `docs`. A folder becomes a directory
and, when it carries content, a `README.md` inside that directory. A page
becomes `<slug>.md`, where the slug is the last segment of its path. A page
with blank content gets a one-line heading instead of its content. An existing
file is never overwritten unless force mode is on (`--force`, `FORCE=1` or
`FORCE=true`). A node of any other type is reported and skipped, together with
everything below it.

The model covers the walk (`processNode`), the write policy
(`writeMarkdownFile`), path normalisation (`normalizeRelPath`), page location
(`getPageFileInfo`), the content fallback, and the force predicate. It is
organised as follows:

- `options.dfy`: `Option`, standing for a JSON field that may be absent.
- `text.dfy`: trimming a run of characters from both ends, which covers both
  the slash-stripping regular expressions and JavaScript's `trim`. It also has
  `split`/`join` on one separator character.
  - Trimming is characterised without reference to its algorithm. The result
    is the unique middle of the input that has padding characters on both
    sides and has none at its own ends.
  - Split and join are proved to be inverses of each other.
- `paths.dfy`: node paths and where each node lands. A location is a sequence
  of path segments relative to the output root, which is the empty sequence.
- `filesystem.dfy`: the output tree as a value `Disk(files, dirs)`, `mkdir -p`,
  and the write-unless-present policy. Console messages become events in a
  report (`Written`, `Skipped`, `Warned`).
- `materializer.dfy`: the node datatype, the walk, and the laws it keeps.
  - Each law is stated against two independent reference definitions: the
    pre-order list of files the walk visits, and the set of directories it
    creates.
  - These laws give the main guarantees: nothing is deleted; only visited
    files and created directories change; without force no existing file
    changes; a second run without force changes nothing.
- `scenarios.dfy`: small trees and what generating them leaves behind.

Force mode, the command line and the FORCE environment variable are plain
parameters. The output root is the empty path.

Two details of the code that are easy to misread:

- A page's content is written verbatim, not trimmed. Trimming only decides
  whether the content counts as blank (generate-docs.js:83-86).
- "Root" is decided for each node from its own path: an absent path, `""` or
  `"/"`. It is not decided from the node's position as the tree root, so a
  tree root that is a page at `/intro` becomes `intro.md`, not `README.md`
  (generate-docs.js:64, 81).

## Model

| member | source | states |
|---|---|---|
| Text.Trim | generate-docs.js:39 | The result is a slice of the input, with only padding characters before and after it and none at its own two ends. |
| Text.TrimUnique | generate-docs.js:39 | Any padded, bare middle of a string is what trimming returns, so the characterisation above pins trimming down. |
| Text.TrimIdempotent | generate-docs.js:39 | Trimming an already trimmed string changes nothing. |
| Text.TrimEmptyIff | generate-docs.js:84 | Trimming leaves nothing exactly when every character is a padding character. |
| Text.Split | generate-docs.js:51 | `split('/')` returns at least one piece and no piece contains the separator. |
| Text.JoinSplit | generate-docs.js:51-54 | Joining the pieces of a split with the separator gives the original string back. |
| Text.SplitLastEmpty | generate-docs.js:51-52 | The last piece of a split is empty exactly when the string ends with the separator. |
| Text.SplitJoin | generate-docs.js:51-54 | Splitting a join of separator-free pieces gives the pieces back. |
| Text.Join | generate-docs.js:54 | No contract of its own: `Text.JoinSplit` and `Text.SplitJoin` make it the inverse of `Text.Split`. |
| Text.JsTrim | generate-docs.js:84 | No contract of its own: it is `Text.Trim` over JavaScript's white space, so `Text.TrimUnique`, `Text.TrimEmptyIff` and `Materializer.VisibleIffTrimmed` describe it. |
| Paths.IsRootPath | generate-docs.js:64 | No contract of its own: `Paths.NormalizeRelPath`, `Paths.PageFileInfo` and `Paths.FolderDir` state what a root-like path leads to. |
| Paths.NormalizeRelPath | generate-docs.js:37-40 | Absent, `""` and `/` give `""`. Otherwise the result is the input's middle, untouched, with all leading and trailing slashes removed, and it neither starts nor ends with `/`. |
| Paths.NormalizeOfPadded | generate-docs.js:39 | Slashes around a path that has no slash at either end are exactly what normalisation strips. |
| Paths.NormalizeIdempotent | generate-docs.js:37-40 | Normalising a normalised path returns it unchanged. |
| Paths.NonEmpty | generate-docs.js:54 | The result is no longer than the input, holds exactly the input's non-empty pieces, and is the input itself when no piece is empty. |
| Paths.NonEmptyAppend | generate-docs.js:54 | Dropping empty pieces distributes over concatenation, and a single piece is kept exactly when it is not empty, so the non-empty pieces keep their order and repetitions, as `path.join` keeps them. |
| Paths.SegmentsOf | generate-docs.js:68 | Every segment of a joined relative path is non-empty and free of `/`. |
| Paths.FolderDir | generate-docs.js:67-68 | A root-like folder path maps to the output root. Every directory segment is non-empty and free of `/`. |
| Paths.FolderDirOfSegments | generate-docs.js:67-68 | A folder at `/s1/.../sk` (with any slashes around it) is directory `s1/.../sk`. |
| Paths.PageFileInfo | generate-docs.js:42-61 | The root page, or a page whose path is absent, `""` or `/`, is `README.md` at the output root. Every file name ends in `.md` with a non-empty stem and contains no `/`. |
| Paths.SlugLocation | generate-docs.js:50-59 | The file name ends in `.md` after a non-empty stem and contains no `/`. Every directory segment is non-empty and free of `/`. |
| Paths.SlugLocationOfSegments | generate-docs.js:51-59 | For non-empty, slash-free segments, the last one plus `.md` names the file and the others, in order, are the directory. |
| Paths.NormalizePieces | generate-docs.js:38-39 | A path built from slash-free pieces whose first and last are not empty, with any slashes around it, is not root-like, normalises to the pieces joined with `/`, and splits back into the pieces. |
| Paths.PageLocationOfPieces | generate-docs.js:50-59 | A page path with doubled slashes inside lands at its last piece plus `.md`, in the directory of the non-empty pieces before it. |
| Paths.FolderDirOfPieces | generate-docs.js:67-68 | A folder path with doubled slashes inside is the directory of its non-empty pieces. |
| Paths.PageLocationOfSegments | generate-docs.js:50-60 | A page at `/s1/.../sk` is not root-like. It is the file `sk.md` at depth k-1, in directory `s1/.../s(k-1)`. |
| Paths.NormalizeJoined | generate-docs.js:50-51 | A path built from segments normalises to the segments joined with `/`, and splitting that gives the segments back. |
| Paths.PageOfOnlySlashes | generate-docs.js:52 | A page whose path is two or more slashes and nothing else lands at `index.md` in the output root. |
| Paths.IndexFallbackIff | generate-docs.js:50-52 | For a path that is not root-like, the last piece of the split normalised path is empty, so `index` is used, exactly when the path is slashes only. |
| Paths.StripExtension | generate-docs.js:86 | Removes one trailing `.md` when there is one, and otherwise leaves the name alone. |
| FileSystem.EnsureDir | generate-docs.js:21-23 | Afterwards the directory and every ancestor exist. Files are untouched, only those directories are added, and creating an existing directory changes nothing. |
| FileSystem.WriteMarkdownFile | generate-docs.js:25-35 | The parent directory is created first. Without force, an existing file is kept and a skip is reported. Otherwise the file holds the content, or `""` when it is absent, and a write is reported. No other file changes and nothing is deleted. |
| Materializer.IsForce | generate-docs.js:15-19 | No contract of its own: `Scenarios.ForceFlagScenario` checks it on concrete command lines and FORCE values. |
| Materializer.VisibleIffTrimmed | generate-docs.js:84 | `content && content.trim().length > 0` holds exactly when the content has a character outside JavaScript's white space. |
| Materializer.PageContent | generate-docs.js:83-86 | Visible content is written verbatim. Blank content with a non-empty title gives `# <title>\n`. Blank content without a title gives `# <file name without .md>\n`. |
| FileSystem.FileEventsAppend | generate-docs.js:78 | The files a report is about are those of its two parts, in order. |
| Materializer.ProcessNode | generate-docs.js:63-96 | No contract of its own: `Materializer.ProcessNodeLaws`, `Materializer.ProcessNodeIdempotent` and `Materializer.UnknownNodeSkipped` describe it. |
| Materializer.ProcessChildren | generate-docs.js:77-79 | No contract of its own: `Materializer.ProcessChildrenLaws` and `Materializer.ProcessChildrenInOrder` describe it. |
| Materializer.Generate | generate-docs.js:113-114 | No contract of its own: `Materializer.GenerateIdempotent` and the scenarios describe it. |
| Materializer.WriteLaws | generate-docs.js:25-35 | One write visits exactly its file and creates exactly the ancestors of its directory, within the walk laws. |
| Materializer.EnsureDirLaws | generate-docs.js:69 | Creating a folder's directory visits no file and creates exactly that directory's ancestors. |
| Materializer.WarnLaws | generate-docs.js:93-95 | An unknown node changes no file and reports no write or skip. |
| Materializer.ProcessNodeLaws | generate-docs.js:63-96 | The walk of a node deletes nothing and changes only the files it visits, in pre-order, and the directories it creates. All of those exist afterwards. It reports one write or skip per visited file, in visiting order. Without force it never changes an existing file and writes only files that did not exist. With force it skips nothing. |
| Materializer.ProcessChildrenLaws | generate-docs.js:77-79 | The same laws for a list of siblings, with their visits concatenated in list order. |
| Materializer.ProcessNodeNoOp | generate-docs.js:28-31 | Without force, a walk over a disk that already holds every file and directory it would produce changes nothing and writes nothing. |
| Materializer.ProcessChildrenNoOp | generate-docs.js:77-79 | The same for a list of siblings. |
| Materializer.FolderHeadNoOp | generate-docs.js:66-75 | On such a disk, a folder's own step changes nothing and leaves the children's part covered. |
| Materializer.PageHeadNoOp | generate-docs.js:81-88 | On such a disk, a page's own write is a skip and leaves the children's part covered. |
| Materializer.SkipExisting | generate-docs.js:28-31 | Without force, a write to an existing file under existing directories only reports the skip. |
| Materializer.ProcessNodeIdempotent | generate-docs.js:63-96 | Walking a node twice without force leaves what walking it once left, and the second walk writes nothing. |
| Materializer.ProcessChildrenInOrder | generate-docs.js:78 | Walking `a + b` is walking `a`, then `b` on the state `a` left. |
| Materializer.UnknownNodeSkipped | generate-docs.js:93-95 | An unknown node leaves the disk alone and reports one warning with its type and title. The result does not depend on its children. |
| Materializer.GenerateIdempotent | generate-docs.js:113-114 | Generating twice without force leaves exactly what generating once left, and the second run writes no file. |
| Scenarios.LeafPage | generate-docs.js:80-92 | A page without children is one write of its file with its content. |
| Scenarios.GenerateLeafPage | generate-docs.js:80-92 | The same for a page generated as the tree root. |
| Scenarios.LeafPageFiles | generate-docs.js:28-33 | Generating a lone page adds its file, unless the file exists and force is off. |
| Scenarios.FreshPage | generate-docs.js:80-92 | A lone page generated onto an empty output root creates exactly its one file. |
| Scenarios.WriteToEmpty | generate-docs.js:25-35 | A write onto a disk with no files creates exactly that file. |
| Scenarios.TopPageLocation | generate-docs.js:50-59 | A page `/<slug>` lands at `<slug>.md` in the output root. |
| Scenarios.NestedPageLocation | generate-docs.js:50-59 | A page `/<a>/<b>` lands at `<b>.md` in directory `<a>`. |
| Scenarios.VisibleContent | generate-docs.js:83-85 | Content with a visible character is written as it is. |
| Scenarios.VisibleTopPage | generate-docs.js:83-88 | A page `/<slug>` with visible content generated onto an empty root yields exactly `<slug>.md` holding that content. |
| Scenarios.EmptyRootFolder | generate-docs.js:66-79 | A root folder without content around one child generates exactly what the child alone generates. No `README.md` is created for it. |
| Scenarios.SlugHeading | generate-docs.js:86 | Blank content and no title give the heading `# <slug>`. |
| Scenarios.DoubledSlashPage | generate-docs.js:50-59 | A page `/<a>//<b>//<c>/` lands at `<c>.md` in directory `<a>/<b>`. |
| Scenarios.DoubledSlashFolder | generate-docs.js:67-68 | A folder `/<a>//<b>/` is directory `<a>/<b>`. |
| Scenarios.BlankPageSlugHeading | generate-docs.js:83-88 | Page `/a/b` with blank content and no title yields exactly `a/b.md` holding `# b\n`. |
| Scenarios.BlankPageTitleHeading | generate-docs.js:86 | Blank content and a title yield exactly `<slug>.md` holding `# <title>\n`. |
| Scenarios.WhitespaceIsBlank | generate-docs.js:84 | A space, a line feed and a tab together are blank content. |
| Scenarios.UnknownTypeScenario | generate-docs.js:93-95 | A `widget` node with a page below it writes nothing and reports one warning naming `widget` and its title. |
| Scenarios.FieldlessNodeScenario | generate-docs.js:93-95 | A node with no fields writes nothing and reports one warning with neither type nor title. |
| Scenarios.KeepScenario | generate-docs.js:28-31 | Without force, an existing page file keeps its content. |
| Scenarios.OverwriteScenario | generate-docs.js:28-34 | With force, an existing page file is replaced by the new content. |
| Scenarios.ForcedReplace | generate-docs.js:33 | A forced write of the only file replaces its content. |
| Scenarios.FolderReadmeScenario | generate-docs.js:66-75 | A folder `/<name>/` with content creates exactly directory `<name>` and `<name>/README.md` holding the content. |
| Scenarios.LeafFolder | generate-docs.js:66-79 | A folder with content and no children creates its directory, then writes its `README.md`. |
| Scenarios.ForceFlagScenario | generate-docs.js:15-19 | `--force` after the script, `FORCE=true` and `FORCE=1` turn force on. `force` with `FORCE=yes` does not, and neither does `--force` in the interpreter's place with `FORCE=TRUE`. |

## Left out

- `update-docs.js`, the git step that stages, commits and pushes through subprocesses. Its behaviour is whatever the external commands do.
- Most of `main` (generate-docs.js:98-117): checking that `docs-structure.json` exists, reading it, `JSON.parse`, and `process.exit`. The model starts from a parsed `Node`; `Materializer.Generate` covers lines 113-114.
- JSON fields that hold something other than a string. `type`, `path`, `title` and `content` are optional strings. A `children` value that is not an array is modelled as the empty list, which the code treats the same way.
- Real file-system behaviour:
  - The model has no permissions and no I/O errors.
  - A file and a directory of the same name do not clash.
  - There are no OS path separators and no absolute output root.
- `path.join` resolving `.` and `..` segments. Empty segments are dropped, as `path.join` does; `.` and `..` are kept as ordinary names.
- Console output. The `[write]`, `[skip]` and `[warn]` lines are events in the report, without their text. `path.relative(process.cwd(), …)` is not modelled.
- Reading `process.argv` and `process.env`. `IsForce` takes the whole command line and the optional FORCE value as parameters, and the walk takes `force` as a parameter.
- A `null` tree node, among `children` or as the root. The code throws at `node.path` (generate-docs.js:64) and aborts the run, keeping whatever earlier siblings wrote; the model has no such failure. Any other value that is not an object (a number, string, boolean or array) has no `path` or `type`, so it is warned about and skipped (generate-docs.js:93-95), which the model expresses as a node with no fields, `Node(None, None, None, None, [])`.
- Strings that are not sequences of Unicode scalar values. JavaScript strings are UTF-16 code units, and `JSON.parse` accepts lone surrogates such as `"\ud800"`. A Dafny `string` cannot hold them, so such paths, titles and contents are outside the model. Trimming is unaffected, because every white-space character lies in the Basic Multilingual Plane.
- `Text.JsTrim`: JavaScript's white-space set is given as the code points of ECMA-262's WhiteSpace and LineTerminator productions. Unicode "Zs" membership is fixed to the list written out there, not looked up.
