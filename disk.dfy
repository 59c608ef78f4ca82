/** The part of the local file system the downloader looks at: which paths
    exist and what was put there. */
module Disk {

  /** What a path holds: a directory, a lesson page written as text, or the
      bytes fetched from `url` (`complete` is false when the transfer broke
      off after the file was opened, leaving a partial file behind). */
  datatype Entry = Dir | Page(text: string) | Download(url: string, complete: bool)

  class FileSystem {
    var files: map<string, Entry>
  }

  /** `os.makedirs(path, exist_ok=True)` for one path: nothing happens when
      the path already exists. */
  function MakeDir(files: map<string, Entry>, path: string): (r: map<string, Entry>)
    ensures path in r && r.Keys == files.Keys + {path}
    ensures forall p :: p in files ==> r[p] == files[p]
  {
    if path in files then files else files[path := Dir]
  }

  /** `os.makedirs(path, exist_ok=True)` for each path in turn. */
  function MakeDirs(files: map<string, Entry>, paths: seq<string>): map<string, Entry>
  {
    if paths == [] then files
    else MakeDir(MakeDirs(files, paths[..|paths| - 1]), paths[|paths| - 1])
  }

  /** Every path asked for exists afterwards. */
  lemma {:induction false} MakeDirsHas(files: map<string, Entry>, paths: seq<string>, k: nat)
    requires k < |paths|
    ensures paths[k] in MakeDirs(files, paths)
  {
    var n := |paths| - 1;
    if k < n {
      assert paths[..n][k] == paths[k];
      MakeDirsHas(files, paths[..n], k);
    }
  }

  /** Existing entries are left alone, and whatever is new is a directory
      that was asked for. */
  lemma {:induction false} MakeDirsKeeps(files: map<string, Entry>, paths: seq<string>, p: string)
    ensures p in files ==> p in MakeDirs(files, paths) && MakeDirs(files, paths)[p] == files[p]
    ensures p in MakeDirs(files, paths) && p !in files ==> MakeDirs(files, paths)[p] == Dir && p in paths
  {
    if paths != [] {
      var n := |paths| - 1;
      MakeDirsKeeps(files, paths[..n], p);
      assert p in paths[..n] ==> p in paths;
    }
  }
}
