/** Concrete trees and what generating them leaves on an empty (or prepared) output root. */
module Scenarios {
  import opened Options
  import opened Text
  import opened Paths
  import opened FileSystem
  import opened Materializer

  const Empty: Disk := Disk(map[], {})

  function PageNode(path: string, title: Option<string>, content: Option<string>): Node {
    Node(Some("page"), Some(path), title, content, [])
  }

  /** Generating a lone page is one write of its file, at the location and with the content the page defines. */
  lemma GenerateLeafPage(path: string, title: Option<string>, content: Option<string>, force: bool, d: Disk)
    ensures var loc := PageFileInfo(Some(path), IsRootPath(Some(path)));
      Generate(PageNode(path, title, content), force, d)
        == WriteMarkdownFile(Run(EnsureDir(d, []), []), loc.dir, loc.fileName,
                             Some(PageContent(content, title, loc.fileName)), force)
  {
    var n := PageNode(path, title, content);
    assert TypeOf(n.tag) == Page;
    LeafPage(n, force, Run(EnsureDir(d, []), []));
  }

  lemma LeafPage(n: Node, force: bool, r: Run)
    requires TypeOf(n.tag) == Page && n.children == []
    ensures var loc := PageFileInfo(n.path, IsRootPath(n.path));
      ProcessNode(n, force, r)
        == WriteMarkdownFile(r, loc.dir, loc.fileName, Some(PageContent(n.content, n.title, loc.fileName)), force)
  {
  }

  /** The files after generating a lone page: its file added, unless it exists and force is off. */
  lemma LeafPageFiles(path: string, title: Option<string>, content: Option<string>, force: bool, d: Disk)
    ensures var loc := PageFileInfo(Some(path), IsRootPath(Some(path)));
      Generate(PageNode(path, title, content), force, d).disk.files
        == if !force && loc.File() in d.files then d.files
           else d.files[loc.File() := PageContent(content, title, loc.fileName)]
  {
    GenerateLeafPage(path, title, content, force, d);
  }

  /** A page `/<slug>` lands at `<slug>.md` in the output root. */
  lemma TopPageLocation(slug: string)
    requires slug != "" && '/' !in slug
    ensures !IsRootPath(Some("/" + slug))
    ensures PageFileInfo(Some("/" + slug), false) == Location([], slug + Extension)
  {
    assert Join([slug], '/') == slug;
    assert "/" + slug + "" == "/" + slug;
    PageLocationOfSegments("/", [slug], "");
  }

  /** A page `/<slug>` with visible content, generated onto an empty output root: its file holds the content. */
  lemma VisibleTopPage(slug: string, title: Option<string>, content: string, i: nat)
    requires slug != "" && '/' !in slug
    requires i < |content| && !IsJsWhitespace(content[i])
    ensures Generate(PageNode("/" + slug, title, Some(content)), false, Empty).disk.files
      == map[[slug + Extension] := content]
  {
    var name := slug + Extension;
    assert Location([], name).File() == [name];
    TopPageLocation(slug);
    VisibleContent(content, title, name, i);
    FreshPage("/" + slug, title, Some(content), Location([], name), content);
  }

  /**
   A root folder without content around one child generates what the child
   alone generates: no README.md appears for it.
   */
  lemma EmptyRootFolder(child: Node, force: bool, d: Disk)
    ensures Generate(Node(Some("folder"), Some("/"), None, None, [child]), force, d) == Generate(child, force, d)
  {
    var top: Path := [];
    var d0 := EnsureDir(d, top);
    assert top[..0] == top;
    assert Prefixes(top) <= d0.dirs;
    assert EnsureDir(d0, top) == d0;
    assert ProcessChildren([child], force, Run(d0, [])) == ProcessChildren([], force, ProcessNode(child, force, Run(d0, [])));
  }

  /** A page `/<a>/<b>` lands at `<b>.md` in directory `<a>`. */
  lemma NestedPageLocation(a: string, b: string)
    requires AreSegments([a, b])
    ensures !IsRootPath(Some("/" + a + "/" + b))
    ensures PageFileInfo(Some("/" + a + "/" + b), false) == Location([a], b + Extension)
  {
    assert Join([a, b], '/') == a + "/" + b;
    assert "/" + (a + "/" + b) + "" == "/" + a + "/" + b;
    PageLocationOfSegments("/", [a, b], "");
  }

  /** A page `/<a>//<b>//<c>/` lands at `<c>.md` in directory `<a>/<b>`: the doubled slashes add no directory level. */
  lemma DoubledSlashPage(a: string, b: string, c: string)
    requires AreSegments([a, b, c])
    ensures PageFileInfo(Some("/" + a + "//" + b + "//" + c + "/"), false) == Location([a, b], c + Extension)
  {
    var parts := DoubledPieces(a, b, c);
    PageLocationOfPieces("/", parts, "/");
  }

  /** The pieces of `<a>//<b>//<c>`, and the directory the ones before the last make. */
  lemma DoubledPieces(a: string, b: string, c: string) returns (parts: seq<string>)
    requires AreSegments([a, b, c])
    ensures ArePieces(parts) && |parts| == 5 && parts[4] == c
    ensures "/" + Join(parts, '/') + "/" == "/" + a + "//" + b + "//" + c + "/"
    ensures NonEmpty(parts[..4]) == [a, b]
  {
    parts := [a, "", b, "", c];
    var segs := [a, b, c];
    assert a in segs && b in segs && c in segs;
    assert forall x :: x in parts ==> x == "" || x in segs;
    JoinDoubled(a, b, c);
    assert parts[..4] == [a, "", b, ""];
    DropEmpty(a, b);
  }

  /** Joining two segments and a last one with an empty piece after each of the first two doubles the slashes. */
  lemma JoinDoubled(a: string, b: string, c: string)
    ensures "/" + Join([a, "", b, "", c], '/') + "/" == "/" + a + "//" + b + "//" + c + "/"
  {
    var j3 := Join(["", c], '/');
    var j2 := Join([b, "", c], '/');
    var j1 := Join(["", b, "", c], '/');
    assert j3 == "/" + c by {
      JoinCons("", [c]);
    }
    assert j2 == b + "//" + c by {
      JoinCons(b, ["", c]);
    }
    assert j1 == "/" + b + "//" + c by {
      JoinCons("", [b, "", c]);
    }
    JoinCons(a, ["", b, "", c]);
  }

  lemma JoinCons(x: string, rest: seq<string>)
    requires |rest| >= 1
    ensures Join([x] + rest, '/') == x + "/" + Join(rest, '/')
  {
    assert ([x] + rest)[1..] == rest;
  }

  /** The empty pieces between and after two segments are dropped. */
  lemma DropEmpty(a: string, b: string)
    requires a != "" && b != ""
    ensures NonEmpty([a, "", b, ""]) == [a, b]
  {
    assert NonEmpty([b, ""]) == [b] by {
      assert [b, ""][1..] == [""] && [""][1..] == [];
    }
    assert [a, "", b, ""][1..] == ["", b, ""] && ["", b, ""][1..] == [b, ""];
  }

  /** A folder `/<a>//<b>/` is the directory `<a>/<b>`. */
  lemma DoubledSlashFolder(a: string, b: string)
    requires AreSegments([a, b])
    ensures FolderDir(Some("/" + a + "//" + b + "/")) == [a, b]
  {
    var parts := FolderPieces(a, b);
    FolderDirOfPieces("/", parts, "/");
  }

  /** The pieces of `<a>//<b>`, and the directory they make. */
  lemma FolderPieces(a: string, b: string) returns (parts: seq<string>)
    requires AreSegments([a, b])
    ensures ArePieces(parts)
    ensures "/" + Join(parts, '/') + "/" == "/" + a + "//" + b + "/"
    ensures NonEmpty(parts) == [a, b]
  {
    assert a in [a, b] && b in [a, b];
    parts := [a, "", b];
    assert forall x :: x in parts ==> x == "" || x in [a, b];
    assert Join(["", b], '/') == "/" + b by {
      JoinCons("", [b]);
    }
    JoinCons(a, ["", b]);
    DropEmptyBetween(a, b);
  }

  /** The empty piece between two segments is dropped. */
  lemma DropEmptyBetween(a: string, b: string)
    requires a != "" && b != ""
    ensures NonEmpty([a, "", b]) == [a, b]
  {
    assert [a, "", b][1..] == ["", b] && ["", b][1..] == [b] && [b][1..] == [];
  }

  /** A page `/<a>/<b>` with blank content and no title gets the heading `# <b>` in `<a>/<b>.md`. */
  lemma BlankPageSlugHeading(a: string, b: string, content: Option<string>)
    requires AreSegments([a, b])
    requires !HasVisibleText(content)
    ensures Generate(PageNode("/" + a + "/" + b, None, content), false, Empty).disk.files
      == map[[a, b + Extension] := "# " + b + "\n"]
  {
    var name := b + Extension;
    assert Location([a], name).File() == [a, name];
    NestedPageLocation(a, b);
    SlugHeading(b, content);
    FreshPage("/" + a + "/" + b, None, content, Location([a], name), "# " + b + "\n");
  }

  /** Generating a lone page onto an empty output root creates its one file. */
  lemma FreshPage(path: string, title: Option<string>, content: Option<string>, loc: Location, text: string)
    requires PageFileInfo(Some(path), false) == loc && !IsRootPath(Some(path))
    requires PageContent(content, title, loc.fileName) == text
    ensures Generate(PageNode(path, title, content), false, Empty).disk.files == map[loc.File() := text]
  {
    GenerateLeafPage(path, title, content, false, Empty);
    WriteToEmpty(loc.dir, loc.fileName, text);
  }

  /** Without visible content or a title, the heading is the file name without `.md`. */
  lemma SlugHeading(b: string, content: Option<string>)
    requires !HasVisibleText(content)
    ensures PageContent(content, None, b + Extension) == "# " + b + "\n"
  {
    var name := b + Extension;
    assert name[..|name| - |Extension|] == b;
  }

  /** A write to a disk holding only directories creates exactly one file. */
  lemma WriteToEmpty(dir: Path, name: string, text: string)
    ensures WriteMarkdownFile(Run(EnsureDir(Empty, []), []), dir, name, Some(text), false).disk.files
      == map[dir + [name] := text]
  {
    assert EnsureDir(Empty, []).files == map[];
  }

  /** A page with blank content and a title gets the title as its heading. */
  lemma BlankPageTitleHeading(slug: string, title: string, content: Option<string>)
    requires slug != "" && '/' !in slug && title != ""
    requires !HasVisibleText(content)
    ensures Generate(PageNode("/" + slug, Some(title), content), false, Empty).disk.files
      == map[[slug + Extension] := "# " + title + "\n"]
  {
    var name := slug + Extension;
    assert Location([], name).File() == [name];
    TopPageLocation(slug);
    FreshPage("/" + slug, Some(title), content, Location([], name), "# " + title + "\n");
  }

  /** White space only (a space, a line feed, a tab) is blank content. */
  lemma WhitespaceIsBlank()
    ensures !HasVisibleText(Some(" \n\t"))
  {
    var blank := " \n\t";
    assert forall i :: 0 <= i < |blank| ==> IsJsWhitespace(blank[i]);
  }

  /** An unknown type writes nothing, reports itself, and its children are never reached. */
  lemma UnknownTypeScenario()
    ensures var widget := Node(Some("widget"), None, Some("X"), None, [PageNode("/hidden", None, None)]);
      && Generate(widget, false, Empty).disk.files == map[]
      && Generate(widget, false, Empty).log == [Warned(Some("widget"), Some("X"))]
  {
  }

  /** A value with no fields, as a number or an array in the tree reads, is warned about as `undefined` and writes nothing. */
  lemma FieldlessNodeScenario(force: bool)
    ensures Generate(Node(None, None, None, None, []), force, Empty).disk.files == map[]
    ensures Generate(Node(None, None, None, None, []), force, Empty).log == [Warned(None, None)]
  {
  }

  /** An existing page file survives a run without force. */
  lemma KeepScenario(slug: string, existing: string, replacement: string)
    requires slug != "" && '/' !in slug
    ensures var page := PageNode("/" + slug, None, Some(replacement));
      var before := Disk(map[[slug + Extension] := existing], {[]});
      Generate(page, false, before).disk.files == before.files
  {
    var name := slug + Extension;
    TopPageLocation(slug);
    var text := PageContent(Some(replacement), None, name);
    var before := Disk(map[[name] := existing], {[]});
    GenerateLeafPage("/" + slug, None, Some(replacement), false, before);
    var top: Path := [];
    assert top + [name] == [name];
    var r0 := Run(EnsureDir(before, top), []);
    assert r0.disk.files == before.files;
    assert WriteMarkdownFile(r0, top, name, Some(text), false).disk.files == before.files;
  }

  /** An existing page file is replaced by a run with force. */
  lemma OverwriteScenario(slug: string, existing: string, replacement: string, i: nat)
    requires slug != "" && '/' !in slug
    requires i < |replacement| && !IsJsWhitespace(replacement[i])
    ensures var page := PageNode("/" + slug, None, Some(replacement));
      var before := Disk(map[[slug + Extension] := existing], {[]});
      Generate(page, true, before).disk.files == map[[slug + Extension] := replacement]
  {
    var name := slug + Extension;
    TopPageLocation(slug);
    VisibleContent(replacement, None, name, i);
    GenerateLeafPage("/" + slug, None, Some(replacement), true, Disk(map[[name] := existing], {[]}));
    ForcedReplace(name, existing, replacement);
  }

  /** Visible content is written as it is. */
  lemma VisibleContent(content: string, title: Option<string>, fileName: string, i: nat)
    requires i < |content| && !IsJsWhitespace(content[i])
    ensures PageContent(Some(content), title, fileName) == content
  {
    assert HasVisibleText(Some(content));
  }

  /** A forced write of the only file at the output root replaces its content. */
  lemma ForcedReplace(name: string, existing: string, text: string)
    ensures var r := Run(EnsureDir(Disk(map[[name] := existing], {[]}), []), []);
      WriteMarkdownFile(r, [], name, Some(text), true).disk.files == map[[name] := text]
  {
    var top: Path := [];
    assert top + [name] == [name];
    var r := Run(EnsureDir(Disk(map[[name] := existing], {[]}), []), []);
    var f := WriteMarkdownFile(r, [], name, Some(text), true).disk.files;
    assert f.Keys == {[name]};
  }

  /** A folder `/<name>/` with content writes it to `<name>/README.md`, creating `<name>`. */
  lemma FolderReadmeScenario(name: string, content: string)
    requires name != "" && '/' !in name && content != ""
    ensures Generate(Node(Some("folder"), Some("/" + name + "/"), None, Some(content), []), false, Empty).disk
      == Disk(map[[name, ReadmeName] := content], {[], [name]})
  {
    assert Join([name], '/') == name;
    FolderDirOfSegments("/", [name], "/");
    var g: Path := [name];
    var top: Path := [];
    PrefixesOfOne(name);
    var n := Node(Some("folder"), Some("/" + name + "/"), None, Some(content), []);
    var r0 := Run(EnsureDir(Empty, top), []);
    assert r0.disk == Disk(map[], {top});
    LeafFolder(n, false, r0);
    var r1 := Run(EnsureDir(r0.disk, g), r0.log);
    assert r1.disk == Disk(map[], {top, g});
    assert g + [ReadmeName] == [name, ReadmeName];
  }

  /** A folder with content and no children: its directory, then its README.md. */
  lemma LeafFolder(n: Node, force: bool, r: Run)
    requires TypeOf(n.tag) == Folder && Truthy(n.content) && n.children == []
    ensures var dir := FolderDir(n.path);
      ProcessNode(n, force, r) == WriteMarkdownFile(Run(EnsureDir(r.disk, dir), r.log), dir, ReadmeName, n.content, force)
  {
  }

  /** The root and a one-segment directory have themselves and the root as ancestors. */
  lemma PrefixesOfOne(name: string)
    ensures Prefixes([]) == {[]}
    ensures Prefixes([name]) == {[], [name]}
  {
    var g: Path := [name];
    var top: Path := [];
    assert top[..0] == top;
    assert g[..0] == [] && g[..1] == g;
    forall q | q in Prefixes(g) ensures q == [] || q == g {
      var k :| 0 <= k <= 1 && q == g[..k];
    }
  }

  /**
   `--force` after the script, or FORCE=1 / FORCE=true, turn force mode on;
   anything else, `--force` in the interpreter's place or FORCE=TRUE
   included, leaves it off.
   */
  lemma ForceFlagScenario()
    ensures IsForce(["node", "generate-docs.js", "--force"], None)
    ensures IsForce(["node", "generate-docs.js"], Some("true")) && IsForce(["node", "generate-docs.js"], Some("1"))
    ensures !IsForce(["node", "generate-docs.js", "force"], Some("yes"))
    ensures !IsForce(["--force", "generate-docs.js"], Some("TRUE"))
  {
    var short := ["--force", "generate-docs.js"];
    assert UserArgs(short) == [];
  }
}
