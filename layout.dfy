/** The course folder layout built before any lesson is fetched: one
    directory per module of the course, named by the module's 1-based
    position and sanitized title, created for every module whether it was
    selected or not, and a map from module id to that directory. */
module Layout {
  import opened Text
  import opened Names
  import opened Disk

  /** A module of the course details, as far as the layout uses it. */
  datatype ModuleInfo = ModuleInfo(id: int, title: string)

  /** The directory of the module at 0-based position `k`. */
  function ModulePath(courseDir: string, k: nat, title: string): string
  {
    PathJoin(courseDir, ModuleDirName(k, title))
  }

  /** `module_dir_map` after the loop over `modules`, where `dirs` holds the
      directory of each module in turn: a later module with the same id
      replaces the entry of an earlier one. */
  function DirMap(modules: seq<ModuleInfo>, dirs: seq<string>): map<int, string>
    requires |dirs| == |modules|
  {
    if modules == [] then map[]
    else
      var n := |modules| - 1;
      DirMap(modules[..n], dirs[..n])[modules[n].id := dirs[n]]
  }

  /** The map has an entry for the id of every module, and for no other id. */
  lemma {:induction false} DirMapKeys(modules: seq<ModuleInfo>, dirs: seq<string>, id: int)
    requires |dirs| == |modules|
    ensures id in DirMap(modules, dirs) <==> exists k :: 0 <= k < |modules| && modules[k].id == id
  {
    if modules != [] {
      var n := |modules| - 1;
      var init := modules[..n];
      DirMapKeys(init, dirs[..n], id);
      if id in DirMap(modules, dirs) {
        if modules[n].id != id {
          var k :| 0 <= k < |init| && init[k].id == id;
          assert modules[k].id == id;
        }
      } else {
        forall k | 0 <= k < |modules|
          ensures modules[k].id != id
        {
          if k < n {
            assert modules[k] == init[k];
          }
        }
      }
    }
  }

  /** The directory of every module, in order. */
  function ModulePaths(courseDir: string, modules: seq<ModuleInfo>): (ps: seq<string>)
    ensures |ps| == |modules|
    ensures forall k :: 0 <= k < |modules| ==> ps[k] == ModulePath(courseDir, k, modules[k].title)
  {
    seq(|modules|, k requires 0 <= k < |modules| => ModulePath(courseDir, k, modules[k].title))
  }

  /** The files after the loop: each module directory is created if missing. */
  function Created(files: map<string, Entry>, courseDir: string, modules: seq<ModuleInfo>): map<string, Entry>
  {
    MakeDirs(files, ModulePaths(courseDir, modules))
  }

  /** The loop of the course set-up: create every module directory and
      record it under the module's id. */
  method CreateModuleDirs(fs: FileSystem, courseDir: string, modules: seq<ModuleInfo>) returns (dirMap: map<int, string>)
    modifies fs
    ensures dirMap == DirMap(modules, ModulePaths(courseDir, modules))
    ensures fs.files == Created(old(fs.files), courseDir, modules)
  {
    dirMap := map[];
    ghost var paths := ModulePaths(courseDir, modules);
    var i := 0;
    while i < |modules|
      invariant 0 <= i <= |modules|
      invariant dirMap == DirMap(modules[..i], paths[..i])
      invariant fs.files == MakeDirs(old(fs.files), paths[..i])
    {
      var path := ModulePath(courseDir, i, modules[i].title);
      DirMapStep(modules, paths, i);
      CreatedStep(old(fs.files), paths, i);
      fs.files := MakeDir(fs.files, path);
      dirMap := dirMap[modules[i].id := path];
      i := i + 1;
    }
    assert modules[..i] == modules && paths[..i] == paths;
  }

  /** One turn of the loop, for the map. */
  lemma DirMapStep(modules: seq<ModuleInfo>, dirs: seq<string>, i: nat)
    requires |dirs| == |modules| && i < |modules|
    ensures DirMap(modules[..i + 1], dirs[..i + 1]) == DirMap(modules[..i], dirs[..i])[modules[i].id := dirs[i]]
  {
    var prefix, dprefix := modules[..i + 1], dirs[..i + 1];
    assert prefix[..i] == modules[..i] && prefix[i] == modules[i] && |prefix| - 1 == i;
    assert dprefix[..i] == dirs[..i] && dprefix[i] == dirs[i];
  }

  /** One turn of the loop, for the files. */
  lemma CreatedStep(files: map<string, Entry>, paths: seq<string>, i: nat)
    requires i < |paths|
    ensures MakeDirs(files, paths[..i + 1]) == MakeDir(MakeDirs(files, paths[..i]), paths[i])
  {
    var prefix := paths[..i + 1];
    assert prefix[..i] == paths[..i] && prefix[i] == paths[i] && |prefix| - 1 == i;
  }

  /** A module id maps to the directory of the last module carrying it. */
  lemma {:induction false} DirMapLastWins(modules: seq<ModuleInfo>, dirs: seq<string>, k: nat)
    requires |dirs| == |modules| && k < |modules|
    requires forall j :: k < j < |modules| ==> modules[j].id != modules[k].id
    ensures modules[k].id in DirMap(modules, dirs)
    ensures DirMap(modules, dirs)[modules[k].id] == dirs[k]
  {
    var n := |modules| - 1;
    if k < n {
      var init := modules[..n];
      assert init[k] == modules[k];
      DirMapLastWins(init, dirs[..n], k);
    }
  }

  /** So the module directory recorded for an id is the numbered directory
      of the last module with that id. */
  lemma ModuleDirOfLast(courseDir: string, modules: seq<ModuleInfo>, k: nat)
    requires k < |modules|
    requires forall j :: k < j < |modules| ==> modules[j].id != modules[k].id
    ensures modules[k].id in DirMap(modules, ModulePaths(courseDir, modules))
    ensures DirMap(modules, ModulePaths(courseDir, modules))[modules[k].id] == ModulePath(courseDir, k, modules[k].title)
  {
    DirMapLastWins(modules, ModulePaths(courseDir, modules), k);
  }

  /** Every module of the course gets its directory, whether selected or
      not; existing entries are left alone; anything new is one of the
      module directories. */
  lemma CreatedDirs(files: map<string, Entry>, courseDir: string, modules: seq<ModuleInfo>, k: nat, p: string)
    requires k < |modules|
    ensures ModulePath(courseDir, k, modules[k].title) in Created(files, courseDir, modules)
    ensures p in files ==> p in Created(files, courseDir, modules) && Created(files, courseDir, modules)[p] == files[p]
    ensures p in Created(files, courseDir, modules) && p !in files ==>
      Created(files, courseDir, modules)[p] == Dir && p in ModulePaths(courseDir, modules)
  {
    MakeDirsHas(files, ModulePaths(courseDir, modules), k);
    MakeDirsKeeps(files, ModulePaths(courseDir, modules), p);
  }

  /** Every directory the map hands out for a module id is one of the
      created module directories. */
  lemma DirMapCreated(files: map<string, Entry>, courseDir: string, modules: seq<ModuleInfo>, id: int)
    requires id in DirMap(modules, ModulePaths(courseDir, modules))
    ensures DirMap(modules, ModulePaths(courseDir, modules))[id] in Created(files, courseDir, modules)
  {
    var k := DirMapSource(modules, ModulePaths(courseDir, modules), id);
    MakeDirsHas(files, ModulePaths(courseDir, modules), k);
  }

  /** The position of the module whose directory the map holds for `id`. */
  lemma {:induction false} DirMapSource(modules: seq<ModuleInfo>, dirs: seq<string>, id: int) returns (k: nat)
    requires |dirs| == |modules|
    requires id in DirMap(modules, dirs)
    ensures k < |modules| && modules[k].id == id && DirMap(modules, dirs)[id] == dirs[k]
  {
    var n := |modules| - 1;
    if modules[n].id == id {
      k := n;
    } else {
      assert id in DirMap(modules[..n], dirs[..n]);
      k := DirMapSource(modules[..n], dirs[..n], id);
      assert modules[..n][k] == modules[k];
    }
  }

  /** Modules at different positions get different directory names, even
      with equal titles. */
  lemma ModuleDirsDistinct(courseDir: string, modules: seq<ModuleInfo>, j: nat, k: nat)
    requires j < k < |modules|
    ensures ModulePath(courseDir, j, modules[j].title) != ModulePath(courseDir, k, modules[k].title)
  {
    var a, b := ModuleDirName(j, modules[j].title), ModuleDirName(k, modules[k].title);
    ModuleDirNamesDistinct(j, k, modules[j].title, modules[k].title);
    ModuleNameNoSlash(j, modules[j].title);
    ModuleNameNoSlash(k, modules[k].title);
    var prefix := if courseDir == [] || courseDir[|courseDir| - 1] == '/' then courseDir else courseDir + "/";
    assert PathJoin(courseDir, a) == prefix + a && PathJoin(courseDir, b) == prefix + b;
    assert (prefix + a)[|prefix|..] == a && (prefix + b)[|prefix|..] == b;
  }

  lemma ModuleNameNoSlash(k: nat, title: string)
    ensures '/' !in ModuleDirName(k, title)
  {
    DecimalHasNoDot(k + 1);
    SanitizeClean(title);
  }
}
