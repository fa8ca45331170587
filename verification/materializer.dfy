/**
 The tree materializer: walks a parsed tree of folder and page nodes and
 writes a Markdown file for every page and for every folder that carries
 content, creating directories on the way, and never overwriting a file that
 already exists unless force mode is on.
 */
module Materializer {
  import opened Options
  import opened Text
  import opened Paths
  import opened FileSystem

  /** One node of the input tree, as parsed from JSON. Absent fields are None; absent children are []. */
  datatype Node = Node(
    tag: Option<string>,
    path: Option<string>,
    title: Option<string>,
    content: Option<string>,
    children: seq<Node>)

  /** The dispatch on a node's `type` field. */
  datatype NodeType = Folder | Page | Unknown

  function TypeOf(tag: Option<string>): NodeType {
    if tag == Some("folder") then Folder
    else if tag == Some("page") then Page
    else Unknown
  }

  /** JavaScript truthiness of an optional string field: present and not empty. */
  predicate Truthy(s: Option<string>) {
    s.Some? && s.value != ""
  }

  /** The command line after the interpreter and the script path; a shorter command line leaves none. */
  function UserArgs(argv: seq<string>): seq<string> {
    if |argv| <= 2 then [] else argv[2..]
  }

  /** `--force` among the user's arguments, or the FORCE environment variable set to `1` or `true`. */
  function IsForce(argv: seq<string>, env: Option<string>): bool {
    "--force" in UserArgs(argv) || env == Some("1") || env == Some("true")
  }

  /** The content has a character that JavaScript's `trim` would keep. */
  predicate HasVisibleText(content: Option<string>) {
    content.Some? && exists i :: 0 <= i < |content.value| && !IsJsWhitespace(content.value[i])
  }

  /** Content counts as visible, present and not blank after trimming white space, exactly when it has a non-white-space character. */
  lemma VisibleIffTrimmed(content: Option<string>)
    ensures HasVisibleText(content) <==> content.Some? && |JsTrim(content.value)| > 0
  {
    if content.Some? {
      var s := content.value;
      TrimEmptyIff(s, IsJsWhitespace);
      if All(s, IsJsWhitespace) {
        assert !HasVisibleText(content);
      }
    }
  }

  /**
   What a page file holds: its content verbatim (not trimmed) when the
   trimmed content is not empty, otherwise one heading line made of the title
   or, failing that, the file name without `.md`.
   */
  function PageContent(content: Option<string>, title: Option<string>, fileName: string): (text: string)
    ensures HasVisibleText(content) ==> text == content.value
    ensures !HasVisibleText(content) && Truthy(title) ==> text == "# " + title.value + "\n"
    ensures !HasVisibleText(content) && !Truthy(title) && EndsWith(fileName, Extension) ==>
      text == "# " + fileName[..|fileName| - |Extension|] + "\n"
  {
    VisibleIffTrimmed(content);
    if content.Some? && |JsTrim(content.value)| > 0 then
      content.value
    else
      "# " + (if Truthy(title) then title.value else StripExtension(fileName)) + "\n"
  }

  /**
   The files the walk of `n` writes or skips, in the order it reaches them:
   a folder's README.md (when it has content) or a page's own file first,
   then the children's files in list order. An unknown node and everything
   below it contribute nothing.
   */
  function Visits(n: Node): seq<Path>
    decreases n, 1
  {
    match TypeOf(n.tag)
    case Folder =>
      (if Truthy(n.content) then [FolderDir(n.path) + [ReadmeName]] else []) + VisitsAll(n.children)
    case Page =>
      [PageFileInfo(n.path, IsRootPath(n.path)).File()] + VisitsAll(n.children)
    case Unknown => []
  }

  function VisitsAll(cs: seq<Node>): seq<Path>
    decreases cs, 0
  {
    if cs == [] then [] else Visits(cs[0]) + VisitsAll(cs[1..])
  }

  /** The directories the walk of `n` creates: each folder's directory and each page's, with their ancestors. */
  function DirTargets(n: Node): set<Path>
    decreases n, 1
  {
    match TypeOf(n.tag)
    case Folder => Prefixes(FolderDir(n.path)) + DirTargetsAll(n.children)
    case Page => Prefixes(PageFileInfo(n.path, IsRootPath(n.path)).dir) + DirTargetsAll(n.children)
    case Unknown => {}
  }

  function DirTargetsAll(cs: seq<Node>): set<Path>
    decreases cs, 0
  {
    if cs == [] then {} else DirTargets(cs[0]) + DirTargetsAll(cs[1..])
  }

  /** Every file and directory the walk of `n` would produce is already on `d`. */
  predicate Covered(visits: seq<Path>, dirs: set<Path>, d: Disk) {
    (forall k :: k in visits ==> k in d.files) && dirs <= d.dirs
  }

  /**
   What a stretch of the walk that visits the files `visits` and creates the
   directories `dirs` does to the disk: nothing is deleted, nothing outside
   `visits` and `dirs` changes, all of them exist afterwards, and without
   force no existing file changes its content.
   */
  ghost predicate DiskLaws(d: Disk, d': Disk, force: bool, visits: seq<Path>, dirs: set<Path>) {
    && Grows(d, d')
    && (forall k :: k !in visits ==> SameAt(d, d', k))
    && (forall k :: k in visits ==> k in d'.files)
    && dirs <= d'.dirs
    && (forall q :: q in d'.dirs ==> q in d.dirs || q in dirs)
    && (!force ==> KeepsContents(d, d'))
  }

  /**
   What the same stretch adds to the report: one write or skip per visited
   file, in visiting order; without force only files that did not exist are
   written, with force nothing is skipped.
   */
  ghost predicate LogLaws(r: Run, r': Run, force: bool, visits: seq<Path>) {
    && r.log <= r'.log
    && FileEvents(r'.log) == FileEvents(r.log) + visits
    && (!force ==> WritesFreshSince(r.disk, r.log, r'.log))
    && (force ==> NoSkipsSince(r.log, r'.log))
  }

  ghost predicate WalkLaws(r: Run, r': Run, force: bool, visits: seq<Path>, dirs: set<Path>) {
    DiskLaws(r.disk, r'.disk, force, visits, dirs) && LogLaws(r, r', force, visits)
  }

  /**
   The walk of one node: a folder creates its directory, writes its content (when
   not empty) to README.md there, then walks its children in order; a page
   writes its file, then walks its children; any other type is reported and
   skipped together with everything below it.
   */
  function ProcessNode(n: Node, force: bool, r: Run): Run
    decreases n, 1
  {
    match TypeOf(n.tag)
    case Folder =>
      var dir := FolderDir(n.path);
      var r1 := Run(EnsureDir(r.disk, dir), r.log);
      var r2 := if Truthy(n.content) then WriteMarkdownFile(r1, dir, ReadmeName, n.content, force) else r1;
      ProcessChildren(n.children, force, r2)
    case Page =>
      var loc := PageFileInfo(n.path, IsRootPath(n.path));
      var text := PageContent(n.content, n.title, loc.fileName);
      var r1 := WriteMarkdownFile(r, loc.dir, loc.fileName, Some(text), force);
      ProcessChildren(n.children, force, r1)
    case Unknown =>
      Run(r.disk, r.log + [Warned(n.tag, n.title)])
  }

  /** Walking a list of siblings: each in list order, each seeing the disk the previous one left. */
  function ProcessChildren(cs: seq<Node>, force: bool, r: Run): Run
    decreases cs, 0
  {
    if cs == [] then r
    else ProcessChildren(cs[1..], force, ProcessNode(cs[0], force, r))
  }

  /** A stretch that does nothing keeps the laws. */
  lemma StayLaws(r: Run, force: bool)
    ensures WalkLaws(r, r, force, [], {})
  {
    assert FileEvents(r.log) + [] == FileEvents(r.log);
  }

  /** Creating a directory keeps the laws, with no file visited. */
  lemma EnsureDirLaws(r: Run, dir: Path, force: bool)
    ensures WalkLaws(r, Run(EnsureDir(r.disk, dir), r.log), force, [], Prefixes(dir))
  {
    var d' := EnsureDir(r.disk, dir);
    forall q | q in Prefixes(dir) ensures q in d'.dirs {
      var k :| 0 <= k <= |dir| && q == dir[..k];
    }
    forall q | q in d'.dirs ensures q in r.disk.dirs || q in Prefixes(dir) {
      if q !in r.disk.dirs {
        assert IsPrefix(q, dir);
        assert q == dir[..|q|];
      }
    }
    assert FileEvents(r.log) + [] == FileEvents(r.log);
  }

  /** Writing one Markdown file keeps the laws, with that file visited. */
  lemma WriteLaws(r: Run, dir: Path, name: string, content: Option<string>, force: bool)
    ensures WalkLaws(r, WriteMarkdownFile(r, dir, name, content, force), force, [dir + [name]], Prefixes(dir))
  {
    var r' := WriteMarkdownFile(r, dir, name, content, force);
    forall q | q in r'.disk.dirs ensures q in r.disk.dirs || q in Prefixes(dir) {
      if q !in r.disk.dirs {
        assert q == dir[..|q|];
      }
    }
    var e := r'.log[|r'.log| - 1];
    assert r'.log[..|r'.log| - 1] == r.log;
  }

  /** A warning keeps the laws, with nothing visited. */
  lemma WarnLaws(r: Run, force: bool, kind: Option<string>, title: Option<string>)
    ensures WalkLaws(r, Run(r.disk, r.log + [Warned(kind, title)]), force, [], {})
  {
    var log' := r.log + [Warned(kind, title)];
    assert log'[..|log'| - 1] == r.log;
    assert FileEvents(r.log) + [] == FileEvents(r.log);
  }

  /** The disk laws of two consecutive stretches give the laws of the whole. */
  lemma ComposeDiskLaws(d: Disk, d1: Disk, d2: Disk, force: bool, v1: seq<Path>, v2: seq<Path>, s1: set<Path>, s2: set<Path>)
    requires DiskLaws(d, d1, force, v1, s1) && DiskLaws(d1, d2, force, v2, s2)
    ensures DiskLaws(d, d2, force, v1 + v2, s1 + s2)
  {
    forall k | k !in v1 + v2 ensures SameAt(d, d2, k) {
      assert SameAt(d, d1, k) && SameAt(d1, d2, k);
    }
    forall k | k in v1 + v2 ensures k in d2.files {
      if k in v1 { assert k in d1.files; }
    }
  }

  /** The report laws of two consecutive stretches give the laws of the whole. */
  lemma ComposeLogLaws(r: Run, r1: Run, r2: Run, force: bool, v1: seq<Path>, v2: seq<Path>)
    requires Grows(r.disk, r1.disk)
    requires LogLaws(r, r1, force, v1) && LogLaws(r1, r2, force, v2)
    ensures LogLaws(r, r2, force, v1 + v2)
  {
    assert FileEvents(r.log) + v1 + v2 == FileEvents(r.log) + (v1 + v2);
    forall i | |r.log| <= i < |r1.log| ensures r2.log[i] == r1.log[i] {
      assert r2.log[..|r1.log|] == r1.log;
    }
  }

  lemma ComposeLaws(r: Run, r1: Run, r2: Run, force: bool, v1: seq<Path>, v2: seq<Path>, s1: set<Path>, s2: set<Path>)
    requires WalkLaws(r, r1, force, v1, s1) && WalkLaws(r1, r2, force, v2, s2)
    ensures WalkLaws(r, r2, force, v1 + v2, s1 + s2)
  {
    ComposeDiskLaws(r.disk, r1.disk, r2.disk, force, v1, v2, s1, s2);
    ComposeLogLaws(r, r1, r2, force, v1, v2);
  }

  /**
   The walk of a node keeps the laws for the files it visits and the
   directories it creates: it deletes nothing, touches nothing else, leaves
   every visited file and every created directory in place, reports one
   write or skip per visited file in pre-order, and without force never
   changes an existing file.
   */
  lemma {:induction false} ProcessNodeLaws(n: Node, force: bool, r: Run)
    ensures WalkLaws(r, ProcessNode(n, force, r), force, Visits(n), DirTargets(n))
    decreases n, 1
  {
    match TypeOf(n.tag)
    case Folder =>
      var dir := FolderDir(n.path);
      var r1 := Run(EnsureDir(r.disk, dir), r.log);
      EnsureDirLaws(r, dir, force);
      var r2 := if Truthy(n.content) then WriteMarkdownFile(r1, dir, ReadmeName, n.content, force) else r1;
      var v: seq<Path> := if Truthy(n.content) then [dir + [ReadmeName]] else [];
      if Truthy(n.content) {
        WriteLaws(r1, dir, ReadmeName, n.content, force);
        ComposeLaws(r, r1, r2, force, [], v, Prefixes(dir), Prefixes(dir));
        assert [] + v == v && Prefixes(dir) + Prefixes(dir) == Prefixes(dir);
      }
      ProcessChildrenLaws(n.children, force, r2);
      ComposeLaws(r, r2, ProcessChildren(n.children, force, r2), force, v, VisitsAll(n.children), Prefixes(dir), DirTargetsAll(n.children));
    case Page =>
      var loc := PageFileInfo(n.path, IsRootPath(n.path));
      var text := PageContent(n.content, n.title, loc.fileName);
      var r1 := WriteMarkdownFile(r, loc.dir, loc.fileName, Some(text), force);
      WriteLaws(r, loc.dir, loc.fileName, Some(text), force);
      ProcessChildrenLaws(n.children, force, r1);
      ComposeLaws(r, r1, ProcessChildren(n.children, force, r1), force, [loc.File()], VisitsAll(n.children), Prefixes(loc.dir), DirTargetsAll(n.children));
    case Unknown =>
      WarnLaws(r, force, n.tag, n.title);
  }

  lemma {:induction false} ProcessChildrenLaws(cs: seq<Node>, force: bool, r: Run)
    ensures WalkLaws(r, ProcessChildren(cs, force, r), force, VisitsAll(cs), DirTargetsAll(cs))
    decreases cs, 0
  {
    if cs == [] {
      StayLaws(r, force);
    } else {
      var r1 := ProcessNode(cs[0], force, r);
      ProcessNodeLaws(cs[0], force, r);
      ProcessChildrenLaws(cs[1..], force, r1);
      ComposeLaws(r, r1, ProcessChildren(cs[1..], force, r1), force, Visits(cs[0]), VisitsAll(cs[1..]), DirTargets(cs[0]), DirTargetsAll(cs[1..]));
    }
  }

  lemma ComposeNoWrites(a: seq<Event>, b: seq<Event>, c: seq<Event>)
    requires a <= b <= c
    requires NoWritesSince(a, b) && NoWritesSince(b, c)
    ensures NoWritesSince(a, c)
  {
    forall i | |a| <= i < |b| ensures c[i] == b[i] {
      assert c[..|b|] == b;
    }
  }

  /**
   Without force, a walk over a disk that already holds every file and
   directory it would produce changes nothing: every file is skipped.
   */
  lemma {:induction false} ProcessNodeNoOp(n: Node, r: Run)
    requires Covered(Visits(n), DirTargets(n), r.disk)
    ensures ProcessNode(n, false, r).disk == r.disk
    ensures NoWritesSince(r.log, ProcessNode(n, false, r).log)
    decreases n, 1
  {
    match TypeOf(n.tag)
    case Folder =>
      var r2 := FolderHeadNoOp(n, r);
      ProcessChildrenNoOp(n.children, r2);
      ProcessChildrenLaws(n.children, false, r2);
      ComposeNoWrites(r.log, r2.log, ProcessChildren(n.children, false, r2).log);
    case Page =>
      var r1 := PageHeadNoOp(n, r);
      ProcessChildrenNoOp(n.children, r1);
      ProcessChildrenLaws(n.children, false, r1);
      ComposeNoWrites(r.log, r1.log, ProcessChildren(n.children, false, r1).log);
    case Unknown =>
  }

  /** A covered folder's own step (its directory, its README.md) changes nothing; `r2` is where its children start. */
  lemma FolderHeadNoOp(n: Node, r: Run) returns (r2: Run)
    requires TypeOf(n.tag) == Folder
    requires Covered(Visits(n), DirTargets(n), r.disk)
    ensures ProcessNode(n, false, r) == ProcessChildren(n.children, false, r2)
    ensures r2.disk == r.disk && r.log <= r2.log && NoWritesSince(r.log, r2.log)
    ensures Covered(VisitsAll(n.children), DirTargetsAll(n.children), r2.disk)
  {
    var dir := FolderDir(n.path);
    var r1 := Run(EnsureDir(r.disk, dir), r.log);
    assert r1.disk == r.disk;
    r2 := if Truthy(n.content) then WriteMarkdownFile(r1, dir, ReadmeName, n.content, false) else r1;
    if Truthy(n.content) {
      assert dir + [ReadmeName] in Visits(n);
    }
    assert forall k :: k in VisitsAll(n.children) ==> k in Visits(n);
  }

  /** A covered page's own file is skipped and changes nothing; `r1` is where its children start. */
  lemma PageHeadNoOp(n: Node, r: Run) returns (r1: Run)
    requires TypeOf(n.tag) == Page
    requires Covered(Visits(n), DirTargets(n), r.disk)
    ensures ProcessNode(n, false, r) == ProcessChildren(n.children, false, r1)
    ensures r1.disk == r.disk && r.log <= r1.log && NoWritesSince(r.log, r1.log)
    ensures Covered(VisitsAll(n.children), DirTargetsAll(n.children), r1.disk)
  {
    var loc := PageFileInfo(n.path, IsRootPath(n.path));
    var text := PageContent(n.content, n.title, loc.fileName);
    PageCovered(n, loc, r.disk);
    SkipExisting(r, loc.dir, loc.fileName, Some(text));
    r1 := WriteMarkdownFile(r, loc.dir, loc.fileName, Some(text), false);
  }

  /** What coverage of a page's walk says about the page's own file and about its children. */
  lemma PageCovered(n: Node, loc: Location, d: Disk)
    requires TypeOf(n.tag) == Page && loc == PageFileInfo(n.path, IsRootPath(n.path))
    requires Covered(Visits(n), DirTargets(n), d)
    ensures loc.dir + [loc.fileName] in d.files && Prefixes(loc.dir) <= d.dirs
    ensures Covered(VisitsAll(n.children), DirTargetsAll(n.children), d)
  {
    assert Visits(n) == [loc.File()] + VisitsAll(n.children);
    assert loc.File() in Visits(n);
    assert forall k :: k in VisitsAll(n.children) ==> k in Visits(n);
  }

  /** Without force, writing a file that exists under existing directories only reports the skip. */
  lemma SkipExisting(r: Run, dir: Path, name: string, content: Option<string>)
    requires dir + [name] in r.disk.files && Prefixes(dir) <= r.disk.dirs
    ensures WriteMarkdownFile(r, dir, name, content, false) == Run(r.disk, r.log + [Skipped(dir + [name])])
  {
  }

  lemma {:induction false} ProcessChildrenNoOp(cs: seq<Node>, r: Run)
    requires Covered(VisitsAll(cs), DirTargetsAll(cs), r.disk)
    ensures ProcessChildren(cs, false, r).disk == r.disk
    ensures NoWritesSince(r.log, ProcessChildren(cs, false, r).log)
    decreases cs, 0
  {
    if cs != [] {
      var r1 := ProcessNode(cs[0], false, r);
      ProcessNodeNoOp(cs[0], r);
      ProcessChildrenNoOp(cs[1..], r1);
      ProcessNodeLaws(cs[0], false, r);
      ProcessChildrenLaws(cs[1..], false, r1);
      ComposeNoWrites(r.log, r1.log, ProcessChildren(cs[1..], false, r1).log);
    }
  }

  /**
   Running the walk twice without force leaves the same files and
   directories as running it once, and the second run writes nothing.
   */
  lemma ProcessNodeIdempotent(n: Node, r: Run)
    ensures var once := ProcessNode(n, false, r);
      && ProcessNode(n, false, once).disk == once.disk
      && NoWritesSince(once.log, ProcessNode(n, false, once).log)
  {
    var once := ProcessNode(n, false, r);
    ProcessNodeLaws(n, false, r);
    ProcessNodeNoOp(n, once);
  }

  /** Siblings are walked in list order: walking `a + b` is walking `a`, then `b` from where `a` left off. */
  lemma {:induction false} ProcessChildrenInOrder(a: seq<Node>, b: seq<Node>, force: bool, r: Run)
    ensures ProcessChildren(a + b, force, r) == ProcessChildren(b, force, ProcessChildren(a, force, r))
    decreases |a|
  {
    if a == [] {
      assert a + b == b;
    } else {
      assert (a + b)[0] == a[0] && (a + b)[1..] == a[1..] + b;
      ProcessChildrenInOrder(a[1..], b, force, ProcessNode(a[0], force, r));
    }
  }

  /**
   A node of any other type leaves the disk alone, reports one warning naming
   its type and title, and its children are never visited: the outcome is the
   same whatever they are.
   */
  lemma UnknownNodeSkipped(n: Node, others: seq<Node>, force: bool, r: Run)
    requires TypeOf(n.tag) == Unknown
    ensures ProcessNode(n, force, r).disk == r.disk
    ensures ProcessNode(n, force, r).log == r.log + [Warned(n.tag, n.title)]
    ensures ProcessNode(n.(children := others), force, r) == ProcessNode(n, force, r)
  {
  }

  /** main: create the output root, then walk the tree from its root node with an empty report. */
  function Generate(root: Node, force: bool, d: Disk): Run {
    ProcessNode(root, force, Run(EnsureDir(d, []), []))
  }

  /**
   Without force, generating twice leaves exactly what generating once left,
   and the second generation writes no file.
   */
  lemma GenerateIdempotent(root: Node, d: Disk)
    ensures var once := Generate(root, false, d).disk;
      && Generate(root, false, once).disk == once
      && NoWritesSince([], Generate(root, false, once).log)
  {
    var r0 := Run(EnsureDir(d, []), []);
    var once := ProcessNode(root, false, r0);
    ProcessNodeLaws(root, false, r0);
    var top: Path := [];
    assert Prefixes(top) <= once.disk.dirs by {
      assert top[..0] == top;
      assert Prefixes(top) == {top};
    }
    var r1 := Run(EnsureDir(once.disk, []), []);
    assert r1.disk == once.disk;
    ProcessNodeNoOp(root, r1);
  }
}
