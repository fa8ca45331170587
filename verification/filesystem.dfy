/**
 The output tree as an abstract value: the Markdown files under the output
 root, keyed by their path, and the directories that exist there; plus the
 decisions the generator reports while it writes.
 */
module FileSystem {
  import opened Options
  import opened Paths

  datatype Disk = Disk(files: map<Path, string>, dirs: set<Path>)

  /** What the generator reports: a file written, a file left alone, a node skipped. */
  datatype Event =
    | Written(file: Path)
    | Skipped(file: Path)
    | Warned(kind: Option<string>, title: Option<string>)

  /** The state a run threads from node to node: the disk and the report so far. */
  datatype Run = Run(disk: Disk, log: seq<Event>)

  /** `q` is `p` or one of its ancestors. */
  predicate IsPrefix(q: Path, p: Path) {
    |q| <= |p| && p[..|q|] == q
  }

  /** A directory together with all its ancestors up to the output root. */
  function Prefixes(p: Path): set<Path> {
    set k | 0 <= k <= |p| :: p[..k]
  }

  /** `mkdir -p`: the directory and every ancestor exist afterwards; files are untouched. */
  function EnsureDir(d: Disk, dir: Path): (d': Disk)
    ensures d'.files == d.files
    ensures d.dirs <= d'.dirs
    ensures forall k :: 0 <= k <= |dir| ==> dir[..k] in d'.dirs
    ensures forall q :: q in d'.dirs ==> q in d.dirs || IsPrefix(q, dir)
    ensures Prefixes(dir) <= d.dirs ==> d' == d
  {
    Disk(d.files, d.dirs + Prefixes(dir))
  }

  /** The disk holds the same thing at `k` in both states (or nothing in both). */
  predicate SameAt(d: Disk, d': Disk, k: Path) {
    && (k in d.files <==> k in d'.files)
    && (k in d.files ==> d'.files[k] == d.files[k])
  }

  /** Nothing is deleted: every file and directory of `d` is still in `d'`. */
  predicate Grows(d: Disk, d': Disk) {
    d.files.Keys <= d'.files.Keys && d.dirs <= d'.dirs
  }

  /** Every file of `d` is still in `d'` with the same content. */
  predicate KeepsContents(d: Disk, d': Disk) {
    forall k :: k in d.files ==> k in d'.files && d'.files[k] == d.files[k]
  }

  /**
   Writes `content` (the empty string when absent) to `dir/name`, after
   creating `dir`; unless `force` is off and the file already exists, in
   which case the file is left as it is and the skip is reported.
   */
  function WriteMarkdownFile(r: Run, dir: Path, name: string, content: Option<string>, force: bool): (r': Run)
    ensures var file := dir + [name];
      && Grows(r.disk, r'.disk)
      && Prefixes(dir) <= r'.disk.dirs
      && (forall q :: q in r'.disk.dirs ==> q in r.disk.dirs || IsPrefix(q, dir))
      && (forall k :: k != file ==> SameAt(r.disk, r'.disk, k))
      && (!force && file in r.disk.files ==>
            r'.disk.files == r.disk.files && r'.log == r.log + [Skipped(file)])
      && (force || file !in r.disk.files ==>
            file in r'.disk.files && r'.disk.files[file] == content.GetOr("")
            && r'.log == r.log + [Written(file)])
  {
    var d := EnsureDir(r.disk, dir);
    var file := dir + [name];
    if !force && file in d.files then
      Run(d, r.log + [Skipped(file)])
    else
      Run(Disk(d.files[file := content.GetOr("")], d.dirs), r.log + [Written(file)])
  }

  /** The files the events of `log` are about, written or skipped, in order. */
  function FileEvents(log: seq<Event>): seq<Path> {
    if log == [] then []
    else
      var e := log[|log| - 1];
      FileEvents(log[..|log| - 1]) + (if e.Warned? then [] else [e.file])
  }

  /** One more event adds its file at the end, unless it is a warning. */
  lemma FileEventsSnoc(log: seq<Event>, e: Event)
    ensures FileEvents(log + [e]) == FileEvents(log) + (if e.Warned? then [] else [e.file])
  {
    assert (log + [e])[..|log|] == log;
  }

  /** The files of a report are those of its two parts, in order. */
  lemma {:induction false} FileEventsAppend(a: seq<Event>, b: seq<Event>)
    ensures FileEvents(a + b) == FileEvents(a) + FileEvents(b)
    decreases |b|
  {
    if b == [] {
      assert a + b == a;
    } else {
      var b' := b[..|b| - 1];
      var e := b[|b| - 1];
      assert b == b' + [e];
      assert a + b == (a + b') + [e];
      FileEventsAppend(a, b');
      FileEventsSnoc(a + b', e);
      FileEventsSnoc(b', e);
    }
  }

  /** No event after the first |log| events of `log'` is a skip. */
  predicate NoSkipsSince(log: seq<Event>, log': seq<Event>) {
    forall i :: |log| <= i < |log'| ==> !log'[i].Skipped?
  }

  /** No event after the first |log| events of `log'` is a write. */
  predicate NoWritesSince(log: seq<Event>, log': seq<Event>) {
    forall i :: |log| <= i < |log'| ==> !log'[i].Written?
  }

  /** Every write after the first |log| events of `log'` is to a file that `d` does not hold. */
  predicate WritesFreshSince(d: Disk, log: seq<Event>, log': seq<Event>) {
    forall i :: |log| <= i < |log'| && log'[i].Written? ==> log'[i].file !in d.files
  }
}
