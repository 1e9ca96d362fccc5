/** The record `write_manifest` serialises to `manifest.json`. The relative
    path of each file (`str(file_path.relative_to(manifest_path.parent))`)
    is given as the function `relative`. */
module Manifest {
  import opened PosixPath

  datatype FileEntry = FileEntry(filename: string, relativePath: string, sourceUrl: string)

  datatype Record = Record(sourcePage: string, fileCount: nat, files: seq<FileEntry>)

  /** One element of the `files` list. Every entry names the page URL as its
      source, not the URL the file was fetched from. */
  function Entry(sourceUrl: string, relative: string -> string, path: string): (e: FileEntry)
    ensures e.sourceUrl == sourceUrl
    ensures e.filename == Name(path) && (e.filename == "" || IsComponent(e.filename))
    ensures e.relativePath == relative(path)
  {
    FileEntry(Name(path), relative(path), sourceUrl)
  }

  function Entries(sourceUrl: string, relative: string -> string, paths: seq<string>): (es: seq<FileEntry>)
    ensures |es| == |paths|
    ensures forall i :: 0 <= i < |paths| ==> es[i] == Entry(sourceUrl, relative, paths[i])
  {
    if paths == [] then []
    else Entries(sourceUrl, relative, paths[..|paths| - 1]) + [Entry(sourceUrl, relative, paths[|paths| - 1])]
  }

  /** `manifest_data` as built from the downloaded paths. */
  function BuildManifest(sourceUrl: string, relative: string -> string, paths: seq<string>): (m: Record)
    ensures m.sourcePage == sourceUrl
    ensures m.fileCount == |paths| == |m.files|
    ensures forall i :: 0 <= i < |paths| ==>
      m.files[i].filename == Name(paths[i])
      && m.files[i].relativePath == relative(paths[i])
      && m.files[i].sourceUrl == sourceUrl
  {
    Record(sourceUrl, |paths|, Entries(sourceUrl, relative, paths))
  }

  /** The manifest keeps the order of the downloads: two batches written
      together list the first batch's entries, then the second's. */
  lemma {:induction false} EntriesAppend(sourceUrl: string, relative: string -> string, a: seq<string>, b: seq<string>)
    ensures Entries(sourceUrl, relative, a + b)
         == Entries(sourceUrl, relative, a) + Entries(sourceUrl, relative, b)
  {
    if b != [] {
      var n := |b| - 1;
      assert (a + b)[..|a + b| - 1] == a + b[..n];
      EntriesAppend(sourceUrl, relative, a, b[..n]);
    } else {
      assert a + b == a;
    }
  }

  /** Every entry carries the source page as its URL, so the entries of the
      files from one page differ only in name and path. */
  lemma AllEntriesFromPage(sourceUrl: string, relative: string -> string, paths: seq<string>, e: FileEntry)
    requires e in BuildManifest(sourceUrl, relative, paths).files
    ensures e.sourceUrl == sourceUrl
    ensures exists p :: p in paths && e.filename == Name(p) && e.relativePath == relative(p)
  {
    var es := BuildManifest(sourceUrl, relative, paths).files;
    var i :| 0 <= i < |es| && es[i] == e;
    assert paths[i] in paths;
  }

  /** Files written as `directory / name` are listed under their own names. */
  lemma ManifestNamesFiles(sourceUrl: string, relative: string -> string, dir: string, names: seq<string>, paths: seq<string>)
    requires |names| == |paths|
    requires forall i :: 0 <= i < |names| ==> IsComponent(names[i]) && paths[i] == dir + "/" + names[i]
    ensures forall i :: 0 <= i < |names| ==> BuildManifest(sourceUrl, relative, paths).files[i].filename == names[i]
  {
    forall i | 0 <= i < |names|
      ensures BuildManifest(sourceUrl, relative, paths).files[i].filename == names[i]
    {
      NameOfJoin(dir, names[i]);
    }
  }
}
