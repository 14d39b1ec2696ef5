/**
  The decision logic of the `convert` command of wpress.go: the name of the
  working folder and of the archive, the filter that keeps macOS metadata out
  of the extracted tree, the loop that extracts the zip entries, and the loop
  that decides whether archiving descends into a single nested folder.

  The file system, the zip reader and the WPRESS writer are not modelled:
  what they report (a directory listing, the outcome of opening or writing an
  entry) is a parameter, and what the program asks of them (create this
  directory, write this file) is a result.
 */
module Wpress {
  import opened GoStrings
  import opened GoFilepath

  /** Suffix of the archive `compress` writes. */
  const ARCHIVE_SUFFIX := ".wpress"
  /** Folder macOS adds to zip files for resource forks. */
  const MACOS_RESOURCE_DIR := "__MACOSX"
  /** File the macOS Finder leaves in every folder it shows. */
  const FINDER_METADATA := ".DS_Store"

  // ---------------------------------------------------------------------
  // Output naming

  /** The working folder `convert` extracts into: the base name of the zip
      path with the path's extension removed. */
  function DestFolder(file: string): string {
    TrimSuffix(Base(file), Ext(file))
  }

  /** The archive `compress` writes for the folder src. */
  function ArchivePath(src: string): (r: string)
    ensures HasSuffix(r, ARCHIVE_SUFFIX)
    ensures TrimSuffix(r, ARCHIVE_SUFFIX) == src
  {
    TrimSuffixOfAppended(src, ARCHIVE_SUFFIX);
    src + ARCHIVE_SUFFIX
  }

  /** For a path that does not end in '/', the working folder followed by
      the extension is the base name, and that extension is the base name's
      own; a base name without '.' is kept whole. */
  lemma DestFolderStripsExtension(file: string)
    requires file != "" && file[|file| - 1] != '/'
    ensures DestFolder(file) + Ext(file) == Base(file)
    ensures Ext(Base(file)) == Ext(file)
    ensures '.' !in Base(file) ==> DestFolder(file) == Base(file)
  {
    ExtShape(file);
    ExtOfLastElem(file);
    var b, e := Base(file), Ext(file);
    assert HasSuffix(b, e);
    if '.' !in b {
      assert e == "";
      TrimEmptySuffix(b);
    }
  }

  /** A zip path with trailing '/'s has no extension: the working folder
      is the whole base name. */
  lemma DestFolderIgnoresTrailingSlash(p: string)
    requires p != ""
    ensures DestFolder(p + "/") == Base(p)
  {
    ExtOfSlash(p + "/");
    BaseIgnoresTrailingSlash(p);
    TrimEmptySuffix(Base(p + "/"));
  }

  /** Whatever the path, a base name without '.' is the working folder. */
  lemma DestFolderWithoutDot(file: string)
    requires '.' !in Base(file)
    ensures DestFolder(file) == Base(file)
  {
    var b := Base(file);
    assert b[|b|..] == "";
    if file != "" && file[|file| - 1] != '/' {
      DestFolderStripsExtension(file);
    }
  }

  /** A path whose last element is `stem.ext` gives the folder stem. */
  lemma DestFolderOfNamedFile(path: string, stem: string, ext: string)
    requires '.' !in ext && '/' !in ext
    requires LastElem(path) == stem + "." + ext
    ensures DestFolder(path) == stem
  {
    LastElemNonEmpty(path);
    ExtOfLastElem(path);
    ExtAfterDot(stem, ext);
    TrimDotExtension(stem, ext);
  }

  lemma TrimDotExtension(stem: string, ext: string)
    ensures TrimSuffix(stem + "." + ext, "." + ext) == stem
  {
    assert stem + "." + ext == stem + ("." + ext);
    TrimSuffixOfAppended(stem, "." + ext);
  }

  /** The zip `dir/stem.ext` (or `stem.ext`) is extracted into the folder
      stem and archived as `stem.wpress`, whatever dots stem holds. */
  lemma ZipNaming(dir: string, stem: string, ext: string)
    requires '/' !in stem && '.' !in ext && '/' !in ext
    ensures DestFolder(dir + "/" + stem + "." + ext) == stem
    ensures DestFolder(stem + "." + ext) == stem
    ensures ArchivePath(DestFolder(dir + "/" + stem + "." + ext)) == stem + ARCHIVE_SUFFIX
  {
    var name := stem + "." + ext;
    assert '/' !in name;
    var path := dir + "/" + name;
    assert path == dir + "/" + stem + "." + ext;
    assert path[|path| - |name|..] == name;
    LastElemAfterSeparator(dir, name);
    DestFolderOfNamedFile(path, stem, ext);
    LastElemOfElement(name);
    assert name[|name| - |name|..] == name;
    DestFolderOfNamedFile(name, stem, ext);
  }

  /** The working folder is empty exactly when the path does not end in '/'
      and its base name is a dot file with no other '.', such as ".zip";
      `convert` then extracts into, and archives, the current directory. */
  lemma DestFolderEmpty(file: string)
    ensures DestFolder(file) == "" <==>
      file != "" && file[|file| - 1] != '/' && Base(file)[0] == '.' && '.' !in Base(file)[1..]
  {
    if file == "" {
      assert DestFolder(file) == ".";
    } else if file[|file| - 1] == '/' {
      assert Ext(file) == "";
      TrimEmptySuffix(Base(file));
    } else {
      ExtShape(file);
      var b, e := Base(file), Ext(file);
      if e == "" {
        TrimEmptySuffix(b);
        assert b[0] in b;
      } else {
        ExtIsWholeElement(b, e);
      }
    }
  }

  lemma TrimEmptySuffix(b: string)
    ensures TrimSuffix(b, "") == b
  {
    assert b[|b|..] == "";
  }

  /** An extension trims its element to nothing exactly when the element
      starts with its only '.'. */
  lemma ExtIsWholeElement(b: string, e: string)
    requires e != "" && e[0] == '.' && '.' !in e[1..] && HasSuffix(b, e)
    ensures TrimSuffix(b, e) == "" <==> b[0] == '.' && '.' !in b[1..]
  {
    assert e == b[|b| - |e|..];
    assert b[|b| - |e|] == '.';
    if b[0] == '.' && '.' !in b[1..] {
      assert forall j | 1 <= j < |b| :: b[j] != '.' by {
        forall j | 1 <= j < |b| ensures b[j] != '.' {
          assert b[j] == b[1..][j - 1];
        }
      }
      assert |b| - |e| == 0;
    }
    if |e| == |b| {
      assert b == e;
    }
  }

  // ---------------------------------------------------------------------
  // Skipping macOS metadata while unzipping

  /** The path names macOS metadata: it holds "__MACOSX" or ".DS_Store"
      anywhere, not only as a whole element. */
  predicate IsMetadataPath(path: string) {
    Contains(path, MACOS_RESOURCE_DIR) || Contains(path, FINDER_METADATA)
  }

  /** `unzip` skips the zip entry `name` extracted under dest when the
      joined, cleaned path names macOS metadata. */
  predicate Skipped(dest: string, name: string) {
    IsMetadataPath(Join(dest, name))
  }

  lemma MarkersAreElements()
    ensures |MACOS_RESOURCE_DIR| > 2 && '/' !in MACOS_RESOURCE_DIR
    ensures |FINDER_METADATA| > 2 && '/' !in FINDER_METADATA
  {
  }

  /** An entry is skipped only because a marker occurs in dest or in the
      entry name: cleaning the joined path creates no marker. */
  lemma SkippedOnlyForMarkers(dest: string, name: string)
    requires Skipped(dest, name)
    ensures IsMetadataPath(dest) || IsMetadataPath(name)
  {
    MarkersAreElements();
    JoinContains(dest, name, MACOS_RESOURCE_DIR);
    JoinContains(dest, name, FINDER_METADATA);
  }

  /** Without ".." elements, an entry is skipped exactly when a marker
      occurs in dest or in its name; a marker in dest therefore skips every
      entry of the zip. */
  lemma SkippedExactly(dest: string, name: string)
    requires NoDotDot(dest) && NoDotDot(name)
    ensures Skipped(dest, name) <==> IsMetadataPath(dest) || IsMetadataPath(name)
  {
    MarkersAreElements();
    JoinContains(dest, name, MACOS_RESOURCE_DIR);
    JoinContains(dest, name, FINDER_METADATA);
  }

  /** The filter looks at the cleaned path: an entry that leaves the
      "__MACOSX" folder again through ".." is extracted, although the raw
      joined path names the folder. */
  lemma DotDotLeavesMetadataFolder()
    ensures IsMetadataPath("site/" + "__MACOSX/../a.txt")
    ensures !Skipped("site", "__MACOSX/../a.txt")
  {
    var name := "__MACOSX/../a.txt";
    assert OccursAt("site/" + name, MACOS_RESOURCE_DIR, 5);
    ExampleElements();
    var elems := ["site", "__MACOSX", "..", "a.txt"];
    assert Resolve(elems, false, []) == ["site", "a.txt"];
    assert JoinSep(["site", "a.txt"]) == "site/a.txt";
    assert Join("site", name) == "site/a.txt";
    assert MACOS_RESOURCE_DIR[0] == '_' && FINDER_METADATA[2] == 'S';
    MissingCharacter("site/a.txt", MACOS_RESOURCE_DIR, '_');
    MissingCharacter("site/a.txt", FINDER_METADATA, 'S');
  }

  lemma ExampleElements()
    ensures Split("site" + "/" + "__MACOSX/../a.txt") == ["site", "__MACOSX", "..", "a.txt"]
  {
    assert "__MACOSX/../a.txt" == "__MACOSX" + "/" + (".." + "/" + "a.txt");
    ExampleSingle("site");
    ExampleSingle("__MACOSX");
    ExampleSingle("..");
    ExampleSingle("a.txt");
    FourElements("site", "__MACOSX", "..", "a.txt");
  }

  lemma FourElements(a: string, b: string, c: string, d: string)
    requires Split(a) == [a] && Split(b) == [b] && Split(c) == [c] && Split(d) == [d]
    ensures Split(a + "/" + (b + "/" + (c + "/" + d))) == [a, b, c, d]
  {
    SplitAroundSeparator(c, d);
    SplitAroundSeparator(b, c + "/" + d);
    SplitAroundSeparator(a, b + "/" + (c + "/" + d));
  }

  lemma ExampleSingle(s: string)
    requires s in {"site", "__MACOSX", "..", "a.txt"}
    ensures Split(s) == [s]
  {
    assert '/' !in s;
    SplitSingle(s);
  }

  // ---------------------------------------------------------------------
  // The extraction loop of `unzip`

  /** One entry of the zip, with what the file system answers for it:
      whether `f.Open` succeeds and, for a file, whether creating and
      filling it succeeds. */
  datatype ZipEntry = ZipEntry(name: string, isDir: bool, opens: bool, writes: bool)

  /** What `unzip` asks of the file system for an entry it extracts. */
  datatype Action = MakeDir(path: string) | WriteFile(path: string)

  /** How `unzip` ends: after the last entry, or by `os.Exit(1)` at an
      entry. */
  datatype Exit = Finished | ExitedAt(index: nat)

  /** The entry stops the program: it cannot be opened (checked before the
      skip test, so a metadata entry can stop it too), or it is a file that
      is not skipped and cannot be written. */
  predicate Aborts(dest: string, e: ZipEntry) {
    !e.opens || (!Skipped(dest, e.name) && !e.isDir && !e.writes)
  }

  /** What `unzip` asks for when it extracts entry e to path. */
  function ActionAt(e: ZipEntry, path: string): Action {
    if e.isDir then MakeDir(path) else WriteFile(path)
  }

  /** What `unzip` does with entry e joined to path: nothing when the path
      names macOS metadata, otherwise that entry's action. */
  function Step(e: ZipEntry, path: string): seq<Action> {
    if IsMetadataPath(path) then [] else [ActionAt(e, path)]
  }

  /** The actions for entries already joined to their paths, in zip order. */
  function Plan(entries: seq<ZipEntry>, paths: seq<string>): seq<Action>
    requires |paths| == |entries|
    decreases |entries|
  {
    if entries == [] then []
    else
      var n := |entries| - 1;
      Plan(entries[..n], paths[..n]) + Step(entries[n], paths[n])
  }

  /** The path of each entry under dest, as the loop joins it. */
  function Targets(dest: string, entries: seq<ZipEntry>): (paths: seq<string>)
    ensures |paths| == |entries|
  {
    seq(|entries|, j requires 0 <= j < |entries| => Join(dest, entries[j].name))
  }

  /** The actions for the entries that are not skipped, in zip order. */
  function Extraction(dest: string, entries: seq<ZipEntry>): seq<Action> {
    Plan(entries, Targets(dest, entries))
  }

  /** The index of the first entry that stops the program, or the number
      of entries when none does. */
  function FirstAbort(dest: string, entries: seq<ZipEntry>): (k: nat)
    ensures k <= |entries|
    ensures forall j | 0 <= j < k :: !Aborts(dest, entries[j])
    ensures k < |entries| ==> Aborts(dest, entries[k])
    decreases |entries|
  {
    if entries == [] then 0
    else if Aborts(dest, entries[0]) then 0
    else 1 + FirstAbort(dest, entries[1..])
  }

  /** A plan holds no action at a metadata path. */
  lemma {:induction false} PlanAvoidsMetadata(entries: seq<ZipEntry>, paths: seq<string>, k: nat)
    requires |paths| == |entries| && k < |Plan(entries, paths)|
    ensures !IsMetadataPath(Plan(entries, paths)[k].path)
    decreases |entries|
  {
    var n := |entries| - 1;
    if k < |Plan(entries[..n], paths[..n])| {
      PlanAvoidsMetadata(entries[..n], paths[..n], k);
    }
  }

  /** A plan holds the action of every entry whose path is not metadata. */
  lemma {:induction false} PlanCovers(entries: seq<ZipEntry>, paths: seq<string>, j: nat)
    requires |paths| == |entries| && j < |entries| && !IsMetadataPath(paths[j])
    ensures ActionAt(entries[j], paths[j]) in Plan(entries, paths)
    decreases |entries|
  {
    var n := |entries| - 1;
    if j < n {
      assert entries[..n][j] == entries[j] && paths[..n][j] == paths[j];
      PlanCovers(entries[..n], paths[..n], j);
    }
  }

  /** With no metadata path, a plan holds one action per entry, in order. */
  lemma {:induction false} PlanWhenNothingSkipped(entries: seq<ZipEntry>, paths: seq<string>)
    requires |paths| == |entries|
    requires forall j | 0 <= j < |paths| :: !IsMetadataPath(paths[j])
    ensures |Plan(entries, paths)| == |entries|
    ensures forall j | 0 <= j < |entries| :: Plan(entries, paths)[j] == ActionAt(entries[j], paths[j])
    decreases |entries|
  {
    if entries != [] {
      var n := |entries| - 1;
      PlanWhenNothingSkipped(entries[..n], paths[..n]);
    }
  }

  /** Extending both sequences by one entry adds that entry's step. */
  lemma PlanStep(entries: seq<ZipEntry>, paths: seq<string>, i: nat)
    requires |paths| == |entries| && i < |entries|
    ensures Plan(entries[..i + 1], paths[..i + 1]) == Plan(entries[..i], paths[..i]) + Step(entries[i], paths[i])
  {
    assert entries[..i + 1][..i] == entries[..i];
    assert paths[..i + 1][..i] == paths[..i];
  }

  /** The extraction of a prefix is the plan of that prefix. */
  lemma ExtractionPrefix(dest: string, entries: seq<ZipEntry>, k: nat)
    requires k <= |entries|
    ensures Extraction(dest, entries[..k]) == Plan(entries[..k], Targets(dest, entries)[..k])
  {
    assert Targets(dest, entries[..k]) == Targets(dest, entries)[..k];
  }

  /** Extraction writes nothing under a metadata path. */
  lemma ExtractionAvoidsMetadata(dest: string, entries: seq<ZipEntry>, k: nat)
    requires k < |Extraction(dest, entries)|
    ensures !IsMetadataPath(Extraction(dest, entries)[k].path)
  {
    PlanAvoidsMetadata(entries, Targets(dest, entries), k);
  }

  /** Every entry that is not skipped gets its action at its joined path. */
  lemma ExtractionCovers(dest: string, entries: seq<ZipEntry>, j: nat)
    requires j < |entries| && !Skipped(dest, entries[j].name)
    ensures ActionAt(entries[j], Join(dest, entries[j].name)) in Extraction(dest, entries)
  {
    PlanCovers(entries, Targets(dest, entries), j);
  }

  /** With nothing skipped, every entry gets its action, in zip order. */
  lemma ExtractionWhenNothingSkipped(dest: string, entries: seq<ZipEntry>)
    requires forall j | 0 <= j < |entries| :: !Skipped(dest, entries[j].name)
    ensures |Extraction(dest, entries)| == |entries|
    ensures forall j | 0 <= j < |entries| ::
      Extraction(dest, entries)[j] == ActionAt(entries[j], Join(dest, entries[j].name))
  {
    PlanWhenNothingSkipped(entries, Targets(dest, entries));
  }

  /** `unzip(zipfile, dest)` over the entries of the zip: opens each entry,
      skips metadata, creates directories and writes files under dest, and
      exits the program at the first entry it cannot open or write. */
  method Unzip(dest: string, entries: seq<ZipEntry>) returns (actions: seq<Action>, exit: Exit)
    ensures exit == if FirstAbort(dest, entries) == |entries| then Finished else ExitedAt(FirstAbort(dest, entries))
    ensures actions == Extraction(dest, entries[..FirstAbort(dest, entries)])
  {
    ghost var paths := Targets(dest, entries);
    actions, exit := [], Finished;
    var i := 0;
    while i < |entries|
      invariant i <= FirstAbort(dest, entries)
      invariant actions == Plan(entries[..i], paths[..i])
    {
      var f := entries[i];
      if !f.opens {
        exit := ExitedAt(i);
        ExtractionPrefix(dest, entries, i);
        return;
      }
      var path := Join(dest, f.name);
      var skip := IsMetadataPath(path);
      if !skip && !f.isDir && !f.writes {
        exit := ExitedAt(i);
        ExtractionPrefix(dest, entries, i);
        return;
      }
      PlanStep(entries, paths, i);
      if !skip {
        actions := actions + [if f.isDir then MakeDir(path) else WriteFile(path)];
      }
      i := i + 1;
    }
    ExtractionPrefix(dest, entries, i);
  }

  // ---------------------------------------------------------------------
  // Unwrapping a single nested folder in `compress`

  /** What the file system says an entry of a directory listing is; only
      whether `os.Chdir` into it succeeds matters. */
  datatype Kind = Directory | Symlink(toDirectory: bool) | NonDirectory

  /** One entry of `ioutil.ReadDir`. */
  datatype DirEntry = DirEntry(name: string, kind: Kind)

  /** `os.Chdir` into an entry of this kind succeeds. */
  predicate Enterable(kind: Kind) {
    kind.Directory? || (kind.Symlink? && kind.toDirectory)
  }

  function Names(listing: seq<DirEntry>): seq<string> {
    seq(|listing|, i requires 0 <= i < |listing| => listing[i].name)
  }

  /** The folder the unwrap loop settles on: the last name when every name
      before it is empty, and "" otherwise. */
  function NestedFolder(names: seq<string>): string {
    if |names| > 0 && (forall i | 0 <= i < |names| - 1 :: names[i] == "") then names[|names| - 1]
    else ""
  }

  /** The index of the first non-empty name, or the number of names. */
  function FirstNamed(names: seq<string>): (k: nat)
    ensures k <= |names|
    ensures forall j | 0 <= j < k :: names[j] == ""
    ensures k < |names| ==> names[k] != ""
    decreases |names|
  {
    if names == [] then 0
    else if names[0] != "" then 0
    else 1 + FirstNamed(names[1..])
  }

  function Min(a: nat, b: nat): nat {
    if a <= b then a else b
  }

  /** The loop of `compress` over the listing of the folder: it remembers
      the name of an entry and, if another entry follows, forgets it and
      stops.  `inspected` counts the entries it reads. */
  method SelectFolder(listing: seq<DirEntry>) returns (folder: string, inspected: nat)
    ensures folder == NestedFolder(Names(listing))
    ensures inspected == Min(FirstNamed(Names(listing)) + 2, |listing|)
  {
    ghost var names := Names(listing);
    folder, inspected := "", 0;
    var i := 0;
    while i < |listing|
      invariant i <= |listing| && inspected == i
      invariant forall k | 0 <= k < i - 1 :: names[k] == ""
      invariant folder == if i == 0 then "" else names[i - 1]
    {
      inspected := inspected + 1;
      if folder != "" {
        assert FirstNamed(names) == i - 1;
        folder := "";
        break;
      } else {
        folder := listing[i].name;
      }
      i := i + 1;
    }
  }

  /** An empty listing leaves the folder empty: the root is archived. */
  lemma NoEntryNoFolder()
    ensures NestedFolder(Names([])) == ""
  {
  }

  /** With names as `ioutil.ReadDir` gives them (never empty), the folder
      is chosen exactly when the listing has one entry, and it is that
      entry's name whatever its kind; the loop then reads at most two
      entries. */
  lemma FolderForSingleEntry(listing: seq<DirEntry>)
    requires forall k | 0 <= k < |listing| :: listing[k].name != ""
    ensures NestedFolder(Names(listing)) != "" <==> |listing| == 1
    ensures |listing| == 1 ==> NestedFolder(Names(listing)) == listing[0].name
    ensures Min(FirstNamed(Names(listing)) + 2, |listing|) <= 2
  {
    var names := Names(listing);
    if |listing| > 0 {
      assert names[0] != "";
    }
  }

  /** The directory `compress` archives when it lists `listing` inside
      root: root joined with the chosen folder when `os.Chdir` into it
      succeeds, and root itself when there is no folder or the change of
      directory fails (its error is ignored). */
  function EffectiveRoot(root: string, listing: seq<DirEntry>): string {
    var folder := NestedFolder(Names(listing));
    if folder != "" && Enterable(listing[|listing| - 1].kind) then Join(root, folder) else root
  }

  /** A listing with a single directory is unwrapped; a single regular file
      is chosen too, but the change of directory fails and root is
      archived; two or more entries leave root as it is. */
  lemma UnwrapOutcome(root: string, name: string, listing: seq<DirEntry>)
    requires name != ""
    requires forall k | 0 <= k < |listing| :: listing[k].name != ""
    ensures EffectiveRoot(root, [DirEntry(name, Directory)]) == Join(root, name)
    ensures EffectiveRoot(root, [DirEntry(name, NonDirectory)]) == root
    ensures |listing| != 1 ==> EffectiveRoot(root, listing) == root
  {
    FolderForSingleEntry(listing);
  }

  /** The directory `compress` lists: src when `os.Chdir(src)` succeeds,
      and otherwise the working directory it started in, written "." (the
      error is ignored). */
  function ListedDir(src: string, entered: bool): string {
    if entered then src else "."
  }

  /** `compress(src)`: the archive it writes and the directory it adds to
      it, relative to the directory it started in.  entered says whether
      `os.Chdir(src)` succeeds; listing is the listing of the directory it
      is then in. */
  method Compress(src: string, entered: bool, listing: seq<DirEntry>) returns (archive: string, root: string)
    ensures archive == ArchivePath(src)
    ensures root == EffectiveRoot(ListedDir(src, entered), listing)
  {
    archive := ArchivePath(src);
    var folder, _ := SelectFolder(listing);
    root := ListedDir(src, entered);
    if folder != "" && Enterable(listing[|listing| - 1].kind) {
      root := Join(root, folder);
    }
  }

  /** When `os.Chdir(src)` fails, src is not archived: the archive holds the
      starting directory, or its single nested folder. */
  lemma FailedChdirArchivesStart(src: string, listing: seq<DirEntry>)
    ensures EffectiveRoot(ListedDir(src, false), listing) == "." ||
      EffectiveRoot(ListedDir(src, false), listing) == Join(".", NestedFolder(Names(listing)))
    ensures |listing| != 1 && (forall k | 0 <= k < |listing| :: listing[k].name != "") ==>
      EffectiveRoot(ListedDir(src, false), listing) == "."
  {
    if |listing| != 1 && (forall k | 0 <= k < |listing| :: listing[k].name != "") {
      FolderForSingleEntry(listing);
    }
  }

  // ---------------------------------------------------------------------
  // The `convert` command

  /** The effect of `convert file`. */
  datatype Conversion =
      /** Every entry was extracted under dest, dest was archived from root
          into archive, and dest was removed. */
    | Converted(dest: string, actions: seq<Action>, archive: string, root: string)
      /** The program exited at entry index while unzipping: no archive is
          written and dest stays on disk. */
    | Exited(dest: string, actions: seq<Action>, index: nat)

  /** `convert file` for a zip with these entries.  entered says whether
      `compress` can change into the working folder (`os.MkdirAll` fails
      silently when a file of that name exists), and listing is what the
      directory it then lists holds after extraction. */
  method Convert(file: string, entries: seq<ZipEntry>, entered: bool, listing: seq<DirEntry>) returns (c: Conversion)
    ensures c.dest == DestFolder(file)
    ensures c.actions == Extraction(c.dest, entries[..FirstAbort(c.dest, entries)])
    ensures c.Exited? <==> FirstAbort(c.dest, entries) < |entries|
    ensures c.Exited? ==> c.index == FirstAbort(c.dest, entries)
    ensures c.Converted? ==> c.archive == DestFolder(file) + ARCHIVE_SUFFIX
    ensures c.Converted? ==> c.root == EffectiveRoot(ListedDir(c.dest, entered), listing)
  {
    var dest := DestFolder(file);
    var actions, exit := Unzip(dest, entries);
    if exit.ExitedAt? {
      return Exited(dest, actions, exit.index);
    }
    var archive, root := Compress(dest, entered, listing);
    c := Converted(dest, actions, archive, root);
  }
}
