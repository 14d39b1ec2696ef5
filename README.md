# wpress-archiver: the decision logic of `convert`

wpress-archiver is a Go command-line tool. Its `convert` command turns a zip
file into a WPRESS archive. It works in five steps. It derives a working
folder from the zip's name. It extracts the zip into that folder and skips
macOS metadata. It descends into the folder's single entry when there is only
one. It hands the result to the WPRESS writer, which writes `<folder>.wpress`.
Then it removes the folder.

This project models the decisions `convert` makes along the way, in Dafny:

- `Wpress.DestFolder` and `Wpress.ArchivePath` name the working folder and
  the archive.
- `Wpress.Skipped` is the filter that keeps `__MACOSX` and `.DS_Store` out of
  the extracted tree.
- `Wpress.Unzip` is the extraction loop as a method. What the file system
  answers for each entry is an input. The directories and files it asks for
  are the result.
- `Wpress.SelectFolder` is the loop that picks the single nested folder, as a
  method with loop invariants. `Wpress.EffectiveRoot` says which directory
  ends up in the archive.
- `Wpress.Compress` and `Wpress.Convert` put these together as `compress` and
  the `convert` branch of `main` do.

The Go library functions these steps rely on are modelled from their
documented semantics on `/`-separated paths (Unix). They are
`strings.TrimSuffix` and `strings.Contains` in module `GoStrings`, and
`filepath.Base`, `filepath.Ext`, `filepath.Join` and `filepath.Clean` in
module `GoFilepath`. `Join` cleans its result. The filter therefore sees
paths with `.` and `..` elements resolved. The model keeps this, because it
changes which entries are skipped (`Wpress.DotDotLeavesMetadataFolder`).

The code behaves as follows, and the model keeps this:

- The unwrap step has no "is it a directory" test. A listing with a single
  regular file selects that file like a directory. The following `os.Chdir`
  then fails and its error is ignored, so the root is archived after all
  (`Wpress.UnwrapOutcome`).
- Nothing is cleaned up on failure. An entry that cannot be opened or
  written ends the program with `os.Exit(1)` inside `unzip`. The working
  folder stays on disk and no archive is written (`Wpress.Convert`).
- An entry is opened before the skip test, so an unreadable `__MACOSX`
  entry also ends the program (`Wpress.Aborts`).
- The metadata markers are matched as substrings anywhere in the joined
  path, the working folder included. They are not matched as whole path
  elements.

A zip named like a dot file, such as `backup/.zip`, gives an empty working
folder (`Wpress.DestFolderEmpty`). `convert` then extracts into the current
directory and archives the current directory into `.wpress`. The model
states this behaviour and does not change it.

## Model

| member | source | states |
|---|---|---|
| `Wpress.ArchivePath` | wpress.go:71 | the archive path ends in `.wpress`, and removing that suffix gives back the folder name |
| `Wpress.DestFolderStripsExtension` | wpress.go:49 | for a path not ending in `/`: the working folder followed by `filepath.Ext(file)` is the base name; that extension is the base name's own; a base name without `.` is kept whole |
| `Wpress.DestFolderIgnoresTrailingSlash` | wpress.go:49 | for a non-empty p followed by `/`, and so with any number of trailing `/`, the working folder is the whole base name of p, extension included |
| `Wpress.DestFolderWithoutDot` | wpress.go:49 | for every path, a base name without `.` is the working folder unchanged |
| `Wpress.ZipNaming` | wpress.go:49 | `dir/stem.ext` and `stem.ext` (ext without `.` or `/`) give the folder `stem` and the archive `stem.wpress`, even when stem contains dots |
| `Wpress.DestFolderEmpty` | wpress.go:49 | the working folder is empty exactly when the path does not end in `/` and its base name starts with its only `.` (such as `.zip`) |
| `Wpress.SkippedOnlyForMarkers` | wpress.go:122-127 | an entry is skipped only if `__MACOSX` or `.DS_Store` occurs in the working folder or in the entry name: joining and cleaning create no marker |
| `Wpress.SkippedExactly` | wpress.go:122-127 | when neither the folder nor the name has a `..` element, an entry is skipped if and only if a marker occurs in the folder or in the name; a marker in the folder skips every entry |
| `Wpress.DotDotLeavesMetadataFolder` | wpress.go:122-125 | `__MACOSX/../a.txt` under `site` is extracted: the raw joined path holds `__MACOSX`, but the cleaned path `site/a.txt` does not |
| `Wpress.FirstAbort` | wpress.go:112-143 | the index of the first entry that ends the program (it cannot be opened, or it is a file that is not skipped and cannot be written), or the number of entries when none does |
| `Wpress.Unzip` | wpress.go:104-149 | the loop exits at the first aborting entry, or finishes; its actions are those of the entries before that point that are not skipped, in zip order: a directory for a directory entry, a file otherwise, at `Join(dest, name)` |
| `Wpress.PlanAvoidsMetadata` | wpress.go:122-127 | for any entries and their joined paths, no action the loop plans is at a path that names macOS metadata |
| `Wpress.PlanCovers` | wpress.go:122-147 | for any entries and their joined paths, every entry whose path is not metadata gets its directory or file at that path |
| `Wpress.PlanWhenNothingSkipped` | wpress.go:112-149 | with no metadata path, the plan is one action per entry, in zip order |
| `Wpress.ExtractionAvoidsMetadata` | wpress.go:122-127 | no directory or file the extraction under dest asks for has a path that names macOS metadata |
| `Wpress.ExtractionCovers` | wpress.go:122-147 | every entry that is not skipped gets its directory or file at `Join(dest, name)` |
| `Wpress.ExtractionWhenNothingSkipped` | wpress.go:112-149 | with nothing skipped, the extraction asks for one action per entry, in zip order, each at `Join(dest, name)` |
| `Wpress.FirstNamed` | wpress.go:82-88 | the index of the first entry with a non-empty name: all names before it are empty, and it is non-empty when it is in range |
| `Wpress.SelectFolder` | wpress.go:80-89 | the folder is the last name when all names before it are empty, else `""`; the loop reads the entries up to the first named one and one more, and no further |
| `Wpress.NoEntryNoFolder` | wpress.go:80-81 | an empty listing leaves the folder empty |
| `Wpress.FolderForSingleEntry` | wpress.go:80-89 | with non-empty names (as `ioutil.ReadDir` gives them), a folder is chosen if and only if the listing has exactly one entry; it is that entry's name whatever its kind; at most two entries are read |
| `Wpress.UnwrapOutcome` | wpress.go:91-94 | a single directory is descended into; a single regular file is selected but `os.Chdir` fails, so the root is archived; two or more entries leave the root as it is |
| `Wpress.Compress` | wpress.go:70-98 | `compress(src)` writes `src.wpress`; it archives the effective root of src when `os.Chdir(src)` succeeds, and of the directory it started in when it fails |
| `Wpress.FailedChdirArchivesStart` | wpress.go:77-94 | when `os.Chdir(src)` fails, the archived directory is the starting directory `.` or `Join(".", folder)` for the folder chosen in it, whatever src is; with other than one named entry, it is `.` |
| `Wpress.Convert` | wpress.go:47-61 | `convert file` works in `DestFolder(file)` and extracts as `Unzip` does; it exits exactly when an entry aborts; otherwise it writes `DestFolder(file).wpress` from the effective root of the working folder, or of the starting directory when it cannot change into that folder |
| `GoStrings.TrimSuffix` | wpress.go:49 | the result followed by the suffix is the input when the input ends with the suffix; otherwise the input is unchanged |
| `GoFilepath.Base` | wpress.go:49 | the base name is never empty, and it is `/` or free of `/`; it is `.` for the empty path, `/` for a path of slashes, and the last element for a path not ending in `/` |
| `GoFilepath.BaseIgnoresTrailingSlash` | wpress.go:49 | for a non-empty path, a trailing `/` does not change the base name, so any number of trailing `/` do not |
| `GoFilepath.LastElem` | wpress.go:49 | the last element is a `/`-free suffix of the path, preceded by `/` when shorter than the path |
| `GoFilepath.ExtShape` | wpress.go:49 | the extension is empty exactly when the last element has no `.`; otherwise it starts with `.`, has no other `.`, and ends the last element |
| `GoFilepath.ExtOfLastElem` | wpress.go:49 | the extension of a path is the extension of its last element |
| `GoFilepath.ExtAfterDot` | wpress.go:49 | `Ext(q + "." + ext)` is `"." + ext` when ext has no `.` or `/` |
| `GoFilepath.JoinSplit` | wpress.go:122 | joining the `/`-separated pieces of a path with `/` gives the path back |
| `GoFilepath.SplitAroundSeparator` | wpress.go:122 | the pieces of `a/b` are the pieces of a followed by the pieces of b |
| `GoFilepath.ContainsJoinSep` | wpress.go:122 | a non-empty `/`-free substring occurs in joined elements if and only if it occurs in one element |
| `GoFilepath.CleanAddsNothing` | wpress.go:122 | a `/`-free substring longer than `..` that occurs in `Clean(p)` occurs in p |
| `GoFilepath.CleanKeeps` | wpress.go:122 | without `..` elements, `Clean` keeps every `/`-free substring of length at least 2 |
| `GoFilepath.JoinContains` | wpress.go:122 | such a substring occurs in `Join(dir, name)` only if it occurs in dir or name, and if and only if it does when neither has a `..` element |
| `GoStrings.ContainsAcrossSeparator` | wpress.go:125 | a `/`-free substring of `a/b` occurs in a or in b |
| `GoStrings.MissingCharacter` | wpress.go:125 | a character of the substring that the string lacks rules the substring out |

## Left out

- The WPRESS container format and its writer (`wpress.NewWriter`, `AddDirectory`, `Close`, wpress.go:71 and 97-98) belong to the external package `github.com/yani-/wpress`. That package is not part of this model. `Wpress.Compress` returns the archive path and the directory to archive, and stops there.
- Zip reading and file contents (`zip.OpenReader`, `f.Open`, `os.OpenFile`, `io.Copy`, the deferred closes) are I/O. Only their success or failure enters the model, as the `opens` and `writes` fields of a `ZipEntry`. The failure of `zip.OpenReader` itself (wpress.go:105-109) is not modelled.
- Wpress.Unzip: a file whose copy fails after `os.OpenFile` created it is not recorded as an action, because `writes` covers creating and filling the file together.
- Working-directory and file-system effects (`os.Chdir`, `os.Getwd`, `os.MkdirAll`, `os.RemoveAll`, `ioutil.ReadDir`) are not modelled. The listing of the directory `compress` lists is a parameter of `Wpress.Compress` and `Wpress.Convert`. Whether `os.Chdir` into an entry succeeds is given by its `Kind`, and a `Directory` is always enterable: a directory without search permission, such as one `os.MkdirAll(path, f.Mode())` (wpress.go:130) creates from an entry whose mode lacks the x bits, would make `os.Chdir` fail, and that case is not modelled. Whether `os.Chdir(src)` in `compress` succeeds is a parameter of `Wpress.Compress` and `Wpress.Convert`; when it fails the source goes on in the directory it started in, and so does the model (`Wpress.FailedChdirArchivesStart`). The error of `os.MkdirAll` is not a separate input: its effect shows only through that parameter and through the `writes` of the entries.
- `Wpress.Convert` takes the listing of the working folder after extraction as an input. It does not derive that listing from the extracted entries, because that would need a model of the file system.
- Command-line handling, the usage text, printing and `os.Exit(0)` (wpress.go:14-47, 63-66) are user-interface glue. The `extract` and `compress` commands only print "Not implemented yet" (wpress.go:43-46).
- Paths use the Unix separator `/` only. Windows volume names and `\` separators are not modelled.
- Strings are sequences of characters. Go works on bytes, but every character the modelled functions test for is a single ASCII byte.
