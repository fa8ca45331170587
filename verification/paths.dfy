/**
 Where a node of the tree lands under the output root.

 A location is a sequence of path segments relative to the output root (the
 `docs` directory); the output root itself is the empty sequence. Joining
 the root with a relative path string drops the empty segments that doubled
 slashes produce, as `path.join` does.
 */
module Paths {
  import opened Options
  import opened Text

  /** Path segments relative to the output root. */
  type Path = seq<string>

  /** The file a folder's own content and a root page are written to. */
  const ReadmeName: string := "README.md"
  /** The extension every generated file carries. */
  const Extension: string := ".md"
  /** The slug of a page whose last path segment is empty. */
  const IndexSlug: string := "index"

  predicate IsSlash(c: char) {
    c == '/'
  }

  /** A path that means the output root: absent, empty, or a single slash. */
  predicate IsRootPath(p: Option<string>) {
    p.None? || p.value == "" || p.value == "/"
  }

  /**
   Strips every leading and every trailing slash from a node path; an
   absent path, the empty path and `/` give the empty string.
   */
  function NormalizeRelPath(p: Option<string>): (r: string)
    ensures IsRootPath(p) ==> r == ""
    ensures p.Some? ==> Padded(p.value, r, IsSlash)
    ensures r == "" || (r[0] != '/' && r[|r| - 1] != '/')
  {
    if IsRootPath(p) then
      assert p.Some? ==> p.value[0..0] == "" && All(p.value[..0], IsSlash) && All(p.value[0..], IsSlash);
      ""
    else
      Trim(p.value, IsSlash)
  }

  /** Normalizing is determined by the middle: slashes around a bare path are all it strips. */
  lemma NormalizeOfPadded(a: string, r: string, b: string)
    requires All(a, IsSlash) && All(b, IsSlash)
    requires r == "" || (r[0] != '/' && r[|r| - 1] != '/')
    ensures NormalizeRelPath(Some(a + r + b)) == r
  {
    var s := a + r + b;
    assert s[..|a|] == a && s[|a|..|a| + |r|] == r && s[|a| + |r|..] == b;
    assert Padded(s, r, IsSlash);
    if !IsRootPath(Some(s)) {
      TrimUnique(s, r, IsSlash);
    }
  }

  /** Normalizing an already normalized path changes nothing. */
  lemma NormalizeIdempotent(p: Option<string>)
    ensures NormalizeRelPath(Some(NormalizeRelPath(p))) == NormalizeRelPath(p)
  {
    var r := NormalizeRelPath(p);
    assert r == "" + r + "";
    NormalizeOfPadded("", r, "");
  }

  /** The pieces that are not empty, in order. */
  function NonEmpty(parts: seq<string>): (r: seq<string>)
    ensures |r| <= |parts|
    ensures forall x :: x in r <==> x in parts && x != ""
    ensures "" !in parts ==> r == parts
  {
    if parts == [] then []
    else if parts[0] == "" then NonEmpty(parts[1..])
    else [parts[0]] + NonEmpty(parts[1..])
  }

  /**
   Dropping empty pieces distributes over concatenation, and a single piece is
   kept exactly when it is not empty: the non-empty pieces stay in their order
   and with their repetitions.
   */
  lemma {:induction false} NonEmptyAppend(a: seq<string>, b: seq<string>)
    ensures NonEmpty(a + b) == NonEmpty(a) + NonEmpty(b)
    ensures forall x :: NonEmpty([x]) == if x == "" then [] else [x]
    decreases |a|
  {
    forall x ensures NonEmpty([x]) == if x == "" then [] else [x] {
      assert [x][1..] == [];
    }
    if a == [] {
      assert a + b == b;
    } else {
      assert (a + b)[0] == a[0];
      assert (a + b)[1..] == a[1..] + b;
      NonEmptyAppend(a[1..], b);
    }
  }

  /** Segments of a normalized relative path joined under the output root. */
  function SegmentsOf(rel: string): (r: Path)
    ensures AreSegments(r)
  {
    NonEmpty(Split(rel, '/'))
  }

  /** The directory a folder node maps to: the output root for a root-like or empty path. */
  function FolderDir(p: Option<string>): (dir: Path)
    ensures IsRootPath(p) ==> dir == []
    ensures AreSegments(dir)
  {
    var rel := NormalizeRelPath(p);
    if rel == "" then [] else SegmentsOf(rel)
  }

  /** A directory under the output root and a file name inside it. */
  datatype Location = Location(dir: Path, fileName: string) {
    /** The file's full path under the output root. */
    function File(): Path {
      dir + [fileName]
    }
  }

  /**
   Where a page is written: the root page, or any page whose path is absent,
   empty or `/`, becomes `README.md` at the output root; any other page
   becomes `<slug>.md`, the slug being the last `/`-piece of its normalized
   path (`index` when that piece is empty), in the directory of the pieces
   before it.
   */
  function PageFileInfo(p: Option<string>, isRootPage: bool): (loc: Location)
    ensures isRootPage || IsRootPath(p) ==> loc == Location([], ReadmeName)
    ensures EndsWith(loc.fileName, Extension) && |loc.fileName| > |Extension|
    ensures '/' !in loc.fileName
    ensures AreSegments(loc.dir)
  {
    if isRootPage || IsRootPath(p) then
      Location([], ReadmeName)
    else
      SlugLocation(Split(NormalizeRelPath(p), '/'))
  }

  /** The file for a page path split at `/`: the last piece names it, the others lead to it. */
  function SlugLocation(segments: seq<string>): (loc: Location)
    requires |segments| >= 1 && forall x :: x in segments ==> '/' !in x
    ensures EndsWith(loc.fileName, Extension) && |loc.fileName| > |Extension|
    ensures '/' !in loc.fileName
    ensures AreSegments(loc.dir)
  {
    var last := segments[|segments| - 1];
    var slug := if last == "" then IndexSlug else last;
    assert last in segments;
    assert '/' !in IndexSlug && '/' !in Extension;
    assert '/' !in slug;
    assert forall x :: x in segments[..|segments| - 1] ==> x in segments;
    assert (slug + Extension)[|slug|..] == Extension;
    Location(NonEmpty(segments[..|segments| - 1]), slug + Extension)
  }

  /**
   Slash-free pieces whose first and last are not empty: what splitting a
   normalized path that is not empty gives, doubled slashes showing up as
   empty pieces in between.
   */
  predicate ArePieces(parts: seq<string>) {
    && |parts| >= 1 && parts[0] != "" && parts[|parts| - 1] != ""
    && forall x :: x in parts ==> '/' !in x
  }

  /** Non-empty, slash-free segments, as a path string holds them. */
  predicate AreSegments(parts: seq<string>) {
    forall x :: x in parts ==> x != "" && '/' !in x
  }

  lemma JoinedSegmentsAreBare(parts: seq<string>)
    requires AreSegments(parts)
    ensures var j := Join(parts, '/'); j == "" || (j[0] != '/' && j[|j| - 1] != '/')
  {
    if |parts| > 0 {
      assert parts[0] in parts && parts[|parts| - 1] in parts;
      JoinFirst(parts, '/');
      JoinLast(parts, '/');
      assert parts[0][0] in parts[0];
      var l := parts[|parts| - 1];
      assert l[|l| - 1] in l;
    }
  }

  lemma JoinedPiecesAreBare(parts: seq<string>)
    requires ArePieces(parts)
    ensures var j := Join(parts, '/'); j != "" && j[0] != '/' && j[|j| - 1] != '/'
  {
    assert parts[0] in parts && parts[|parts| - 1] in parts;
    JoinFirst(parts, '/');
    JoinLast(parts, '/');
    assert parts[0][0] in parts[0];
    var l := parts[|parts| - 1];
    assert l[|l| - 1] in l;
  }

  /**
   A path string built from pieces, any of them but the first and the last
   possibly empty, normalizes to the pieces joined with `/`, and splitting
   that gives the pieces back.
   */
  lemma NormalizePieces(a: string, parts: seq<string>, b: string)
    requires All(a, IsSlash) && All(b, IsSlash)
    requires ArePieces(parts)
    ensures !IsRootPath(Some(a + Join(parts, '/') + b))
    ensures NormalizeRelPath(Some(a + Join(parts, '/') + b)) == Join(parts, '/')
    ensures Split(Join(parts, '/'), '/') == parts
  {
    var j := Join(parts, '/');
    var s := a + j + b;
    JoinedPiecesAreBare(parts);
    assert !IsRootPath(Some(s)) by {
      assert s[|a|] == j[0];
    }
    assert NormalizeRelPath(Some(s)) == j by {
      NormalizeOfPadded(a, j, b);
    }
    assert Split(j, '/') == parts by {
      SplitJoin(parts, '/');
    }
  }

  /**
   A page path with doubled slashes inside lands where `path.join` puts it:
   the last piece names the file and the empty pieces before it are dropped
   from its directory.
   */
  lemma PageLocationOfPieces(a: string, parts: seq<string>, b: string)
    requires All(a, IsSlash) && All(b, IsSlash)
    requires ArePieces(parts)
    ensures var k := |parts|;
      PageFileInfo(Some(a + Join(parts, '/') + b), false) == Location(NonEmpty(parts[..k - 1]), parts[k - 1] + Extension)
  {
    NormalizePieces(a, parts, b);
  }

  /** A folder path with doubled slashes inside is the directory of its non-empty pieces. */
  lemma FolderDirOfPieces(a: string, parts: seq<string>, b: string)
    requires All(a, IsSlash) && All(b, IsSlash)
    requires ArePieces(parts)
    ensures FolderDir(Some(a + Join(parts, '/') + b)) == NonEmpty(parts)
  {
    NormalizePieces(a, parts, b);
  }

  /**
   A page at `/s1/.../sk` (with any run of slashes before and after) is the
   file `sk.md` at depth k - 1 under the output root, in directory s1/.../s(k-1).
   */
  lemma PageLocationOfSegments(a: string, parts: seq<string>, b: string)
    requires All(a, IsSlash) && All(b, IsSlash)
    requires |parts| >= 1 && AreSegments(parts)
    ensures !IsRootPath(Some(a + Join(parts, '/') + b))
    ensures var k := |parts|;
      PageFileInfo(Some(a + Join(parts, '/') + b), false) == Location(parts[..k - 1], parts[k - 1] + Extension)
  {
    PageFileInfoOfJoined(a, parts, b);
    SlugLocationOfSegments(parts);
  }

  lemma PageFileInfoOfJoined(a: string, parts: seq<string>, b: string)
    requires All(a, IsSlash) && All(b, IsSlash)
    requires |parts| >= 1 && AreSegments(parts)
    ensures !IsRootPath(Some(a + Join(parts, '/') + b))
    ensures PageFileInfo(Some(a + Join(parts, '/') + b), false) == SlugLocation(parts)
  {
    NormalizeJoined(a, parts, b);
  }

  lemma SlugLocationOfSegments(parts: seq<string>)
    requires |parts| >= 1 && AreSegments(parts)
    ensures SlugLocation(parts) == Location(parts[..|parts| - 1], parts[|parts| - 1] + Extension)
  {
    var front := parts[..|parts| - 1];
    assert parts[|parts| - 1] in parts;
    assert NonEmpty(front) == front by {
      forall x | x in front ensures x != "" {
        assert x in parts;
      }
    }
  }

  /** A path string built from segments normalizes to the segments joined with `/`. */
  lemma NormalizeJoined(a: string, parts: seq<string>, b: string)
    requires All(a, IsSlash) && All(b, IsSlash)
    requires |parts| >= 1 && AreSegments(parts)
    ensures !IsRootPath(Some(a + Join(parts, '/') + b))
    ensures NormalizeRelPath(Some(a + Join(parts, '/') + b)) == Join(parts, '/')
    ensures Split(Join(parts, '/'), '/') == parts
  {
    assert parts[0] in parts && parts[|parts| - 1] in parts;
    NormalizePieces(a, parts, b);
  }

  /** A page whose path is only slashes, but not the single `/`, lands at `index.md` in the output root. */
  lemma PageOfOnlySlashes(s: string)
    requires |s| >= 2 && All(s, IsSlash)
    ensures PageFileInfo(Some(s), false) == Location([], IndexSlug + Extension)
  {
    assert s == s + "" + "";
    NormalizeOfPadded(s, "", "");
  }

  /**
   The `index` fallback is taken exactly for paths made of slashes only: any
   other path that is not root-like ends its normalized form in a non-empty piece.
   */
  lemma IndexFallbackIff(s: string)
    requires !IsRootPath(Some(s))
    ensures var pieces := Split(NormalizeRelPath(Some(s)), '/');
      pieces[|pieces| - 1] == "" <==> All(s, IsSlash)
  {
    var r := NormalizeRelPath(Some(s));
    assert r == Trim(s, IsSlash);
    TrimEmptyIff(s, IsSlash);
    if r == "" {
      assert Split(r, '/') == [""];
    } else {
      SplitLastEmpty(r, '/');
      assert r[|r| - 1] != '/';
    }
  }

  /** A folder at `/s1/.../sk` (any slashes around it) is the directory s1/.../sk. */
  lemma FolderDirOfSegments(a: string, parts: seq<string>, b: string)
    requires All(a, IsSlash) && All(b, IsSlash)
    requires AreSegments(parts)
    ensures FolderDir(Some(a + Join(parts, '/') + b)) == parts
  {
    var j := Join(parts, '/');
    JoinedSegmentsAreBare(parts);
    NormalizeOfPadded(a, j, b);
    if |parts| >= 1 {
      NormalizeJoined(a, parts, b);
      assert "" !in parts;
    }
  }

  /** Drops one `.md` at the very end of a file name, if there is one; nothing else is touched. */
  function StripExtension(name: string): (stem: string)
    ensures EndsWith(name, Extension) ==> stem + Extension == name
    ensures !EndsWith(name, Extension) ==> stem == name
  {
    if EndsWith(name, Extension) then name[..|name| - |Extension|] else name
  }
}
