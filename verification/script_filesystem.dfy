/** `ScriptFilesystem`: the tree of script directories built from the files
    under the workspace roots, with the layered file <-> script maps and the
    dependency tracker. Directories and scripts are objects in the source;
    here they live in arenas keyed by identity, and a directory's parent has
    a smaller identity than the directory (parents are created first). */
module ScriptFilesystems {
  import opened Wrappers
  import opened Chars
  import Util
  import LVM = LayeredValueMaps
  import DT = DependencyTrackers

  type DirId = nat
  type ScriptId = DT.ScriptId

  /** A file, known by its uri (`GscStore.ensureFile` gives one object per
      uri). */
  type FileId = string

  /** A `ScriptDir` without its maps: its name and parent. */
  datatype DirNode = DirNode(name: string, parent: Option<DirId>)

  /** The identity part of a `Script`: its name and directory. */
  datatype ScriptNode = ScriptNode(name: string, dir: DirId)

  /** The directories and scripts ever created. The `children` and
      `scripts` maps of every `ScriptDir` are flattened into `children` and
      `entries`, keyed by (directory, name); what is reachable from the root
      through them is the live tree. */
  datatype Tree = Tree(
    dirs: map<DirId, DirNode>,
    children: map<(DirId, string), DirId>,
    entries: map<(DirId, string), ScriptId>,
    scripts: map<ScriptId, ScriptNode>,
    nextDir: DirId,
    nextScript: ScriptId)

  datatype Filesystem = Filesystem(
    tree: Tree,
    scriptsByFile: LVM.LayeredValueMap<FileId, ScriptId>,
    filesByScript: LVM.LayeredValueMap<ScriptId, FileId>,
    deps: DT.Tracker)

  const Root: DirId := 0

  function NewFilesystem(): (fs: Filesystem)
    ensures Wf(fs.tree)
  {
    Filesystem(Tree(map[Root := DirNode("", None)], map[], map[], map[], 1, 0), map[], map[], DT.NewTracker())
  }

  // ---------------------------------------------------------------------------
  // Well-formedness

  /** Every identity in use was allocated, every directory but the root has
      a parent, and a parent is older than its children. */
  predicate Allocated(t: Tree) {
    && (forall d :: d in t.dirs ==> d < t.nextDir)
    && ParentsOlder(t)
    && (forall d :: d in t.dirs && t.dirs[d].parent.None? ==> d == Root)
    && (forall s :: s in t.scripts ==> s < t.nextScript && t.scripts[s].dir in t.dirs)
  }

  /** A directory's parent is an older directory. */
  predicate ParentsOlder(t: Tree) {
    forall d :: d in t.dirs && t.dirs[d].parent.Some? ==>
      t.dirs[d].parent.value < d && t.dirs[d].parent.value in t.dirs
  }

  /** A child entry names a directory whose name and parent agree with it. */
  predicate ChildrenLinked(t: Tree) {
    forall k :: k in t.children ==>
      k.0 in t.dirs && t.children[k] in t.dirs && t.dirs[t.children[k]] == DirNode(k.1, Some(k.0))
  }

  /** A script entry names a script of that (non-empty) name in that
      directory. */
  predicate ScriptsLinked(t: Tree) {
    forall k :: k in t.entries ==>
      k.0 in t.dirs && t.entries[k] in t.scripts && t.scripts[t.entries[k]] == ScriptNode(k.1, k.0) && k.1 != ""
  }

  predicate Wf(t: Tree) {
    && Root in t.dirs && t.dirs[Root].parent.None?
    && Allocated(t)
    && ChildrenLinked(t)
    && ScriptsLinked(t)
  }

  // ---------------------------------------------------------------------------
  // Paths and lookup

  /** A script path as `string | string[]`. */
  datatype PathArg = Text(text: string) | Parts(parts: seq<string>)

  /** `parseScriptPath`: a string is split on `\`. */
  function ParseScriptPath(path: PathArg): (r: seq<string>)
    ensures path.Text? ==> |r| >= 1
  {
    match path
    case Text(s) => Split(s, '\\')
    case Parts(ps) => ps
  }

  /** `path.length`, of the string or of the array. */
  function PathLength(path: PathArg): nat {
    match path
    case Text(s) => |s|
    case Parts(ps) => |ps|
  }

  /** The directory reached from `cur` by following the folder names. */
  function DirByPath(t: Tree, cur: DirId, folders: seq<string>): Option<DirId>
    decreases |folders|
  {
    if |folders| == 0 then Some(cur)
    else if (cur, folders[0]) in t.children then DirByPath(t, t.children[(cur, folders[0])], folders[1..])
    else None
  }

  /** `getScriptDirByPath`: an empty path is the root; a missing folder
      gives undefined. */
  function GetScriptDirByPath(t: Tree, path: PathArg): (r: Option<DirId>)
  {
    if PathLength(path) == 0 then Some(Root)
    else DirByPath(t, Root, ParseScriptPath(path))
  }

  /** `getScriptByPath`: the last part is the script name (an empty one
      gives undefined), the rest the folders. */
  function GetScriptByPath(t: Tree, path: PathArg): (r: Option<ScriptId>)
  {
    var folders := ParseScriptPath(path);
    if |folders| == 0 then None
    else
      var filename := folders[|folders| - 1];
      if filename == "" then None
      else
        match GetScriptDirByPath(t, Parts(folders[..|folders| - 1]))
        case None => None
        case Some(d) =>
          if (d, filename) in t.entries then Some(t.entries[(d, filename)]) else None
  }

  /** `parseUri`: the uri path with the root path and one separator cut off,
      split on `/`, the extension removed from a non-empty last part and an
      empty last part dropped. */
  function ParseUri(uri: string, root: string): (r: seq<string>)
  {
    var rest := if |root| + 1 <= |uri| then uri[|root| + 1..] else "";
    var segments := Split(rest, '/');
    var last := segments[|segments| - 1];
    if last != "" then segments[..|segments| - 1] + [Util.RemoveFileExtension(last)]
    else segments[..|segments| - 1]
  }

  // ---------------------------------------------------------------------------
  // Creating a file

  /** A new, empty directory `name` under `cur`. */
  function AddChild(t: Tree, cur: DirId, name: string): (r: Tree)
    requires Wf(t) && cur in t.dirs && (cur, name) !in t.children
    ensures Wf(r) && Grows(t, r)
    ensures (cur, name) in r.children && r.children[(cur, name)] == t.nextDir
  {
    AddChildWf(t, cur, name);
    Tree(t.dirs[t.nextDir := DirNode(name, Some(cur))], t.children[(cur, name) := t.nextDir],
         t.entries, t.scripts, t.nextDir + 1, t.nextScript)
  }

  lemma {:induction false} AddChildWf(t: Tree, cur: DirId, name: string)
    requires Wf(t) && cur in t.dirs && (cur, name) !in t.children
    ensures Wf(Tree(t.dirs[t.nextDir := DirNode(name, Some(cur))], t.children[(cur, name) := t.nextDir],
                    t.entries, t.scripts, t.nextDir + 1, t.nextScript))
  {
    var c := t.nextDir;
    var r := Tree(t.dirs[c := DirNode(name, Some(cur))], t.children[(cur, name) := c], t.entries, t.scripts, c + 1, t.nextScript);
    assert Allocated(r) by {
      forall d | d in r.dirs
        ensures d < r.nextDir
        ensures r.dirs[d].parent.Some? ==> r.dirs[d].parent.value < d && r.dirs[d].parent.value in r.dirs
        ensures r.dirs[d].parent.None? ==> d == Root
      {
        if d != c {
          assert d in t.dirs && r.dirs[d] == t.dirs[d];
        }
      }
    }
    assert ChildrenLinked(r) by {
      forall k | k in r.children
        ensures k.0 in r.dirs && r.children[k] in r.dirs && r.dirs[r.children[k]] == DirNode(k.1, Some(k.0))
      {
        if k != (cur, name) {
          assert k in t.children;
        }
      }
    }
  }

  /** r only adds to t: no directory, child entry or script changes or
      disappears, and the script entries are the same. */
  ghost predicate Grows(t: Tree, r: Tree) {
    && (forall d :: d in t.dirs ==> d in r.dirs && r.dirs[d] == t.dirs[d])
    && (forall k :: k in t.children ==> k in r.children && r.children[k] == t.children[k])
    && r.entries == t.entries
    && r.scripts == t.scripts
  }

  /** The directories along `folders` from `cur`, each created as a new
      child where missing; the result is the last one, reached from `cur` by
      those folder names. */
  function Descend(t: Tree, cur: DirId, folders: seq<string>): (r: (Tree, DirId))
    requires Wf(t) && cur in t.dirs
    ensures Wf(r.0) && r.1 in r.0.dirs && Grows(t, r.0)
    ensures DirByPath(r.0, cur, folders) == Some(r.1)
    decreases |folders|
  {
    if |folders| == 0 then (t, cur)
    else
      var name := folders[0];
      var t' := if (cur, name) in t.children then t else AddChild(t, cur, name);
      var r := Descend(t', t'.children[(cur, name)], folders[1..]);
      r
  }

  /** What creating a file did: the new state, the script the file now
      backs, and whether that script was created (its `onCreated` then
      runs). */
  datatype Created = Created(fs: Filesystem, script: ScriptId, isNew: bool)

  /** `onCreateFile`: the file's folders are created where missing, the
      script where missing, and the file and script registered with each
      other at the root's priority. A uri without a file name throws. */
  function OnCreateFile(fs: Filesystem, uri: string, root: string, priority: nat): (r: Result<Created>)
    requires Wf(fs.tree)
    ensures r.Success? ==> Wf(r.value.fs.tree)
  {
    var folders := ParseUri(uri, root);
    if |folders| == 0 || folders[|folders| - 1] == "" then Failure("Invalid script file path")
    else
      var placed := PlaceScript(fs.tree, folders[..|folders| - 1], folders[|folders| - 1]);
      var script := placed.script;
      Success(Created(
        Filesystem(placed.tree,
                   LVM.Set(fs.scriptsByFile, uri, priority, script),
                   LVM.Set(fs.filesByScript, script, priority, uri),
                   fs.deps),
        script, placed.isNew))
  }

  /** The tree after finding or creating a script, the script, and whether
      it was created. */
  datatype Placed = Placed(tree: Tree, script: ScriptId, isNew: bool)

  /** The folders are created where missing, then the script where missing. */
  function PlaceScript(t: Tree, folders: seq<string>, filename: string): (r: Placed)
    requires Wf(t) && filename != ""
    ensures Wf(r.tree) && Extends(t, r.tree)
  {
    var (t1, d) := Descend(t, Root, folders);
    if (d, filename) in t1.entries then Placed(t1, t1.entries[(d, filename)], false)
    else Placed(AddScript(t1, d, filename), t1.nextScript, true)
  }

  /** r keeps every child and script entry of t. */
  ghost predicate Extends(t: Tree, r: Tree) {
    && (forall k :: k in t.children ==> k in r.children && r.children[k] == t.children[k])
    && (forall k :: k in t.entries ==> k in r.entries && r.entries[k] == t.entries[k])
  }

  /** A new script `name` in directory d. */
  function AddScript(t: Tree, d: DirId, name: string): (r: Tree)
    requires Wf(t) && d in t.dirs && (d, name) !in t.entries && name != ""
    ensures Wf(r) && r.dirs == t.dirs && r.children == t.children
    ensures r.entries == t.entries[(d, name) := t.nextScript]
  {
    var s := t.nextScript;
    assert s !in t.scripts;
    t.(entries := t.entries[(d, name) := s], scripts := t.scripts[s := ScriptNode(name, d)], nextScript := s + 1)
  }

  // ---------------------------------------------------------------------------
  // Deleting a file

  /** `dir.children.size + dir.scripts.size > 0`. */
  predicate HasEntries(t: Tree, d: DirId) {
    (exists k :: k in t.children && k.0 == d) || (exists k :: k in t.entries && k.0 == d)
  }

  /** The upward pruning loop: from `d`, while the directory has a parent and
      is empty, it is removed from its parent's children and the parent is
      looked at next. The root has no parent and is never removed. */
  function Prune(t: Tree, d: DirId): (r: Tree)
    requires Wf(t) && d in t.dirs
    ensures Wf(r)
    decreases d
  {
    var dir := t.dirs[d];
    if dir.parent.None? then t
    else if HasEntries(t, d) then t
    else
      var p := dir.parent.value;
      Prune(t.(children := t.children - {(p, dir.name)}), p)
  }

  /** The end of `onDeleteFile`: the state, and whether it threw because no
      script was found at the file's path. */
  datatype Deleted = Deleted(fs: Filesystem, thrown: bool)

  /** `onDeleteFile`: the file's layer leaves both maps; if another file
      still backs the script nothing else happens, otherwise the script
      leaves its directory and empty directories are pruned upward.
      `fileKnown` says whether the file store had the file. */
  function OnDeleteFile(fs: Filesystem, uri: string, root: string, priority: nat, fileKnown: bool): (r: Deleted)
    requires Wf(fs.tree)
    ensures Wf(r.fs.tree)
  {
    var scriptsByFile := if fileKnown then LVM.Delete(fs.scriptsByFile, uri, priority) else fs.scriptsByFile;
    match GetScriptByPath(fs.tree, Parts(ParseUri(uri, root)))
    case None => Deleted(fs.(scriptsByFile := scriptsByFile), true)
    case Some(script) =>
      var filesByScript := LVM.Delete(fs.filesByScript, script, priority);
      FoundIsScript(fs.tree, Parts(ParseUri(uri, root)));
      var tree :=
        if LVM.Get(filesByScript, script).Some? then fs.tree
        else Unlink(fs.tree, script);
      Deleted(Filesystem(tree, scriptsByFile, filesByScript, fs.deps), false)
  }

  /** The script leaves its directory, then the empty directories above it
      are pruned. */
  function Unlink(t: Tree, script: ScriptId): (r: Tree)
    requires Wf(t) && script in t.scripts
    ensures Wf(r)
  {
    var node := t.scripts[script];
    Prune(t.(entries := t.entries - {(node.dir, node.name)}), node.dir)
  }

  /** A script found by path is a script of the tree. */
  lemma {:induction false} FoundIsScript(t: Tree, path: PathArg)
    requires Wf(t) && GetScriptByPath(t, path).Some?
    ensures GetScriptByPath(t, path).value in t.scripts
  {
  }

  // ---------------------------------------------------------------------------
  // Properties

  /** An empty path is the root; a path whose last part is empty names no
      script. */
  lemma {:induction false} EmptyPaths(t: Tree, path: PathArg)
    ensures PathLength(path) == 0 ==> GetScriptDirByPath(t, path) == Some(Root)
    ensures var folders := ParseScriptPath(path);
            (|folders| == 0 || folders[|folders| - 1] == "") ==> GetScriptByPath(t, path).None?
  {
  }

  /** Lookups read only the child entries. */
  lemma {:induction false} DirByPathChildren(t: Tree, r: Tree, cur: DirId, folders: seq<string>)
    requires r.children == t.children
    ensures DirByPath(r, cur, folders) == DirByPath(t, cur, folders)
    decreases |folders|
  {
    if |folders| > 0 && (cur, folders[0]) in t.children {
      DirByPathChildren(t, r, t.children[(cur, folders[0])], folders[1..]);
    }
  }

  /** A lookup that succeeds keeps succeeding, with the same directory, in a
      tree that only grew. */
  lemma {:induction false} DirByPathGrows(t: Tree, r: Tree, cur: DirId, folders: seq<string>)
    requires forall k :: k in t.children ==> k in r.children && r.children[k] == t.children[k]
    requires DirByPath(t, cur, folders).Some?
    ensures DirByPath(r, cur, folders) == DirByPath(t, cur, folders)
    decreases |folders|
  {
    if |folders| > 0 {
      DirByPathGrows(t, r, t.children[(cur, folders[0])], folders[1..]);
    }
  }

  /** Lookups from an existing directory end at existing directories. */
  lemma {:induction false} DirByPathExists(t: Tree, cur: DirId, folders: seq<string>)
    requires Wf(t) && cur in t.dirs && DirByPath(t, cur, folders).Some?
    ensures DirByPath(t, cur, folders).value in t.dirs
    decreases |folders|
  {
    if |folders| > 0 {
      DirByPathExists(t, t.children[(cur, folders[0])], folders[1..]);
    }
  }

  /** `getScriptDirByPath` of an array is the walk from the root. */
  lemma {:induction false} DirOfParts(t: Tree, folders: seq<string>)
    ensures GetScriptDirByPath(t, Parts(folders)) == DirByPath(t, Root, folders)
  {
  }

  /** The script named `filename` in the directory the folders lead to. */
  function ScriptAt(t: Tree, folders: seq<string>, filename: string): Option<ScriptId> {
    match DirByPath(t, Root, folders)
    case None => None
    case Some(d) => if (d, filename) in t.entries then Some(t.entries[(d, filename)]) else None
  }

  /** `getScriptByPath` is the script of the last part's name in the
      directory the other parts lead to. */
  lemma {:induction false} ScriptByPath(t: Tree, path: PathArg)
    ensures var f := ParseScriptPath(path);
            GetScriptByPath(t, path) ==
              if |f| == 0 || f[|f| - 1] == "" then None else ScriptAt(t, f[..|f| - 1], f[|f| - 1])
  {
    var f := ParseScriptPath(path);
    if |f| > 0 {
      DirOfParts(t, f[..|f| - 1]);
    }
  }

  /** `getScriptByPath` of folders and a non-empty name is the script of
      that name in the directory the folders lead to. */
  lemma {:induction false} ScriptByParts(t: Tree, folders: seq<string>, filename: string)
    requires filename != ""
    ensures GetScriptByPath(t, Parts(folders + [filename])) == ScriptAt(t, folders, filename)
  {
    var path := folders + [filename];
    assert path[..|path| - 1] == folders && path[|path| - 1] == filename;
    ScriptByPath(t, Parts(path));
  }

  /** After placing, the script is found at the folders and name it was
      placed at. */
  lemma {:induction false} PlaceThenFind(t: Tree, folders: seq<string>, filename: string)
    requires Wf(t) && filename != ""
    ensures GetScriptByPath(PlaceScript(t, folders, filename).tree, Parts(folders + [filename]))
            == Some(PlaceScript(t, folders, filename).script)
  {
    var desc := Descend(t, Root, folders);
    var r := PlaceScript(t, folders, filename);
    ScriptByParts(r.tree, folders, filename);
    if (desc.1, filename) in desc.0.entries {
      assert r.tree == desc.0;
    } else {
      assert r.tree == AddScript(desc.0, desc.1, filename);
      DirByPathChildren(desc.0, r.tree, Root, folders);
    }
  }

  /** Placing creates a script exactly when none was found at that path. */
  lemma {:induction false} PlaceIsNew(t: Tree, folders: seq<string>, filename: string)
    requires Wf(t) && filename != ""
    ensures PlaceScript(t, folders, filename).isNew <==> GetScriptByPath(t, Parts(folders + [filename])).None?
  {
    var desc := Descend(t, Root, folders);
    ScriptByParts(t, folders, filename);
    if DirByPath(t, Root, folders).None? {
      DescendFresh(t, Root, folders);
      assert (desc.1, filename) !in t.entries;
    } else {
      DirByPathGrows(t, desc.0, Root, folders);
    }
  }

  /** Placing a script keeps every script found where it was. */
  lemma {:induction false} PlaceKeeps(t: Tree, folders: seq<string>, filename: string, q: PathArg)
    requires Wf(t) && filename != "" && GetScriptByPath(t, q).Some?
    ensures GetScriptByPath(PlaceScript(t, folders, filename).tree, q) == GetScriptByPath(t, q)
  {
    FoundInLarger(t, PlaceScript(t, folders, filename).tree, q);
  }

  /** A tree holding all the child and script entries of t finds every
      script t finds, at the same path. */
  lemma {:induction false} FoundInLarger(t: Tree, r: Tree, q: PathArg)
    requires forall k :: k in t.children ==> k in r.children && r.children[k] == t.children[k]
    requires forall k :: k in t.entries ==> k in r.entries && r.entries[k] == t.entries[k]
    requires GetScriptByPath(t, q).Some?
    ensures GetScriptByPath(r, q) == GetScriptByPath(t, q)
  {
    var g := ParseScriptPath(q);
    ScriptByPath(t, q);
    ScriptByPath(r, q);
    DirByPathGrows(t, r, Root, g[..|g| - 1]);
  }

  /** `onCreateFile` throws exactly when the uri has no file name. Otherwise
      the file's script is then found at the file's path, it was created
      exactly when none was found there before, the file and the script are
      registered with each other at the root's priority, every script found
      before is still found, and the dependencies are untouched. */
  lemma {:induction false} CreateThenFind(fs: Filesystem, uri: string, root: string, priority: nat, q: PathArg)
    requires Wf(fs.tree)
    ensures var f := ParseUri(uri, root);
            var r := OnCreateFile(fs, uri, root, priority);
            && (r.Failure? <==> |f| == 0 || f[|f| - 1] == "")
            && (r.Success? ==>
                  && GetScriptByPath(r.value.fs.tree, Parts(f)) == Some(r.value.script)
                  && (r.value.isNew <==> GetScriptByPath(fs.tree, Parts(f)).None?)
                  && LVM.LayerOf(r.value.fs.scriptsByFile, uri, priority) == Some(r.value.script)
                  && LVM.LayerOf(r.value.fs.filesByScript, r.value.script, priority) == Some(uri)
                  && (GetScriptByPath(fs.tree, q).Some? ==> GetScriptByPath(r.value.fs.tree, q) == GetScriptByPath(fs.tree, q))
                  && r.value.fs.deps == fs.deps)
  {
    var f := ParseUri(uri, root);
    if |f| > 0 && f[|f| - 1] != "" {
      var folders := f[..|f| - 1];
      var filename := f[|f| - 1];
      assert folders + [filename] == f;
      PlaceThenFind(fs.tree, folders, filename);
      PlaceIsNew(fs.tree, folders, filename);
      var script := PlaceScript(fs.tree, folders, filename).script;
      LVM.SetLayers(fs.scriptsByFile, uri, priority, script, uri, priority);
      LVM.SetLayers(fs.filesByScript, script, priority, uri, script, priority);
      if GetScriptByPath(fs.tree, q).Some? {
        PlaceKeeps(fs.tree, folders, filename, q);
      }
    }
  }

  /** The uri of a file `name.ext` under folders of the root comes back as
      the folders and the name: the root and its separator are cut off and
      the extension (after the last `.`) is dropped. */
  lemma {:induction false} ParseUriOfFile(root: string, folders: seq<string>, name: string, ext: string)
    requires forall k :: 0 <= k < |folders| ==> '/' !in folders[k]
    requires name != "" && '/' !in name && '/' !in ext && '.' !in ext
    ensures ParseUri(root + "/" + Join(folders + [name + "." + ext], '/'), root) == folders + [name]
  {
    var file := name + "." + ext;
    var parts := folders + [file];
    var uri := root + "/" + Join(parts, '/');
    assert uri[|root| + 1..] == Join(parts, '/');
    assert '/' !in file by {
      assert forall k :: 0 <= k < |file| ==> file[k] == (if k < |name| then name[k] else if k == |name| then '.' else ext[k - |name| - 1]);
    }
    SplitJoin(parts, '/');
    assert parts[..|parts| - 1] == folders;
    RemoveLastExtension(name, ext);
  }

  /** Removing the extension of `name.ext`, where `ext` holds no `.`, gives
      back the name. */
  lemma {:induction false} RemoveLastExtension(name: string, ext: string)
    requires '.' !in ext
    ensures Util.RemoveFileExtension(name + "." + ext) == name
  {
    var file := name + "." + ext;
    assert file[|name|] == '.';
    assert file[..|name|] == name;
  }

  /** Where the walk from an existing directory fails, `Descend` ends at a
      directory it created. */
  lemma {:induction false} DescendFresh(t: Tree, cur: DirId, folders: seq<string>)
    requires Wf(t) && cur in t.dirs && DirByPath(t, cur, folders).None?
    ensures Descend(t, cur, folders).1 !in t.dirs
    decreases |folders|
  {
    var name := folders[0];
    if (cur, name) in t.children {
      DescendFresh(t, t.children[(cur, name)], folders[1..]);
    } else {
      var t' := AddChild(t, cur, name);
      DescendNew(t', t.nextDir, folders[1..], t);
    }
  }

  /** Descending from a directory that is not in t ends outside t. */
  lemma {:induction false} DescendNew(t': Tree, cur: DirId, folders: seq<string>, t: Tree)
    requires Wf(t') && cur in t'.dirs && cur !in t.dirs && Wf(t) && t.nextDir <= cur
    requires forall d :: d in t.dirs ==> d < t.nextDir
    ensures Descend(t', cur, folders).1 !in t.dirs
    decreases |folders|
  {
    if |folders| > 0 {
      var name := folders[0];
      var t2 := if (cur, name) in t'.children then t' else AddChild(t', cur, name);
      var c := t2.children[(cur, name)];
      assert t2.dirs[c].parent == Some(cur);
      DescendNew(t2, c, folders[1..], t);
    }
  }

  // ---------------------------------------------------------------------------
  // Properties of deleting

  /** A directory reachable from the root: every directory up its parent
      chain is listed under its name in its parent's children. */
  ghost predicate Attached(t: Tree, d: DirId)
    decreases d
  {
    && d in t.dirs
    && match t.dirs[d].parent
       case None => true
       case Some(p) =>
         && p < d
         && (p, t.dirs[d].name) in t.children && t.children[(p, t.dirs[d].name)] == d
         && Attached(t, p)
  }

  /** A lookup from an attached directory ends at an attached directory. */
  lemma {:induction false} DirByPathAttached(t: Tree, cur: DirId, folders: seq<string>)
    requires Wf(t) && Attached(t, cur) && DirByPath(t, cur, folders).Some?
    ensures Attached(t, DirByPath(t, cur, folders).value)
    decreases |folders|
  {
    if |folders| > 0 {
      var c := t.children[(cur, folders[0])];
      assert t.dirs[c] == DirNode(folders[0], Some(cur));
      DirByPathAttached(t, c, folders[1..]);
    }
  }

  /** Removing a child entry for a directory younger than d keeps d
      attached: d's parent chain only holds older directories. */
  lemma {:induction false} AttachedWithout(t: Tree, t': Tree, d: DirId, key: (DirId, string))
    requires Wf(t) && Attached(t, d)
    requires key in t.children && t.children[key] > d
    requires t'.dirs == t.dirs && t'.children == t.children - {key}
    ensures Attached(t', d)
    decreases d
  {
    match t.dirs[d].parent
    case None =>
    case Some(p) =>
      AttachedWithout(t, t', p, key);
  }

  /** r is t with some child entries removed, each of them naming a
      directory that is empty in r. */
  ghost predicate Pruned(t: Tree, r: Tree) {
    && r.dirs == t.dirs && r.entries == t.entries && r.scripts == t.scripts
    && (forall k :: k in r.children ==> k in t.children && r.children[k] == t.children[k])
    && (forall k :: k in t.children && k !in r.children ==> !HasEntries(r, t.children[k]))
  }

  /** Pruning from an attached directory only unlinks empty directories. */
  lemma {:induction false} PruneOnlyEmpty(t: Tree, d: DirId)
    requires Wf(t) && Attached(t, d)
    ensures Pruned(t, Prune(t, d))
    decreases d
  {
    var dir := t.dirs[d];
    if dir.parent.Some? && !HasEntries(t, d) {
      var p := dir.parent.value;
      var key := (p, dir.name);
      var t' := t.(children := t.children - {key});
      WithoutChildWf(t, key);
      AttachedWithout(t, t', p, key);
      PruneOnlyEmpty(t', p);
      PrunedStep(t, t', Prune(t', p), key);
    }
  }

  /** Dropping a child entry keeps the tree well formed. */
  lemma {:induction false} WithoutChildWf(t: Tree, key: (DirId, string))
    requires Wf(t)
    ensures Wf(t.(children := t.children - {key}))
  {
  }

  /** One step of the pruning loop: the removed entry named a directory that
      is still empty at the end. */
  lemma {:induction false} PrunedStep(t: Tree, t': Tree, r: Tree, key: (DirId, string))
    requires key in t.children && !HasEntries(t, t.children[key])
    requires t' == t.(children := t.children - {key}) && Pruned(t', r)
    ensures Pruned(t, r)
  {
    forall k | k in t.children && k !in r.children
      ensures !HasEntries(r, t.children[k])
    {
      if k == key {
        assert !HasEntries(t, t.children[k]);
      }
    }
  }

  /** In a tree with fewer child entries, a lookup that still succeeds ends
      where it did. */
  lemma {:induction false} DirByPathShrinks(t: Tree, r: Tree, cur: DirId, folders: seq<string>)
    requires forall k :: k in r.children ==> k in t.children && r.children[k] == t.children[k]
    requires DirByPath(r, cur, folders).Some?
    ensures DirByPath(r, cur, folders) == DirByPath(t, cur, folders)
    decreases |folders|
  {
    if |folders| > 0 {
      DirByPathShrinks(t, r, r.children[(cur, folders[0])], folders[1..]);
    }
  }

  /** After pruning, a walk that ends at a directory that still has entries
      is intact: every directory along it has the next one as a child. */
  lemma {:induction false} WalkKept(t: Tree, r: Tree, cur: DirId, folders: seq<string>, d: DirId)
    requires Pruned(t, r) && DirByPath(t, cur, folders) == Some(d) && HasEntries(r, d)
    ensures DirByPath(r, cur, folders) == Some(d)
    decreases |folders|
  {
    if |folders| > 0 {
      var key := (cur, folders[0]);
      var c := t.children[key];
      WalkKept(t, r, c, folders[1..], d);
      if |folders| > 1 {
        assert (c, folders[1]) in r.children;
        assert HasEntries(r, c);
      }
    }
  }

  /** The script found at a path is the one of that name in the directory
      the path's folders lead to, and that directory is attached. */
  lemma {:induction false} FoundAt(t: Tree, path: PathArg)
    requires Wf(t) && GetScriptByPath(t, path).Some?
    ensures var f := ParseScriptPath(path);
            var node := t.scripts[GetScriptByPath(t, path).value];
            && |f| > 0 && node.name == f[|f| - 1]
            && DirByPath(t, Root, f[..|f| - 1]) == Some(node.dir)
            && (node.dir, node.name) in t.entries
            && Attached(t, node.dir)
  {
    ScriptByPath(t, path);
    var f := ParseScriptPath(path);
    DirByPathAttached(t, Root, f[..|f| - 1]);
  }

  /** Attachment reads only the directories and child entries. */
  lemma {:induction false} AttachedSameLinks(t: Tree, t': Tree, d: DirId)
    requires Attached(t, d) && t'.dirs == t.dirs && t'.children == t.children
    ensures Attached(t', d)
    decreases d
  {
    match t.dirs[d].parent
    case None =>
    case Some(p) =>
      AttachedSameLinks(t, t', p);
  }

  /** The tree `Unlink` prunes: the script's entry gone, still well formed,
      its directory still attached, and pruning from there only unlinks
      empty directories. */
  lemma {:induction false} WithoutEntry(t: Tree, path: PathArg)
    requires Wf(t) && GetScriptByPath(t, path).Some?
    ensures var node := t.scripts[GetScriptByPath(t, path).value];
            var t' := t.(entries := t.entries - {(node.dir, node.name)});
            && Wf(t') && Attached(t', node.dir)
            && Unlink(t, GetScriptByPath(t, path).value) == Prune(t', node.dir)
            && Pruned(t', Prune(t', node.dir))
  {
    FoundAt(t, path);
    var node := t.scripts[GetScriptByPath(t, path).value];
    var t' := t.(entries := t.entries - {(node.dir, node.name)});
    AttachedSameLinks(t, t', node.dir);
    PruneOnlyEmpty(t', node.dir);
  }

  /** After unlinking the script found at a path, no script is found
      there. */
  lemma {:induction false} UnlinkRemoves(t: Tree, path: PathArg)
    requires Wf(t) && GetScriptByPath(t, path).Some?
    ensures GetScriptByPath(Unlink(t, GetScriptByPath(t, path).value), path).None?
  {
    var script := GetScriptByPath(t, path).value;
    FoundAt(t, path);
    var node := t.scripts[script];
    var t' := t.(entries := t.entries - {(node.dir, node.name)});
    var f := ParseScriptPath(path);
    DirByPathChildren(t, t', Root, f[..|f| - 1]);
    WithoutEntry(t, path);
    var r := Unlink(t, script);
    ScriptByPath(r, path);
    if DirByPath(r, Root, f[..|f| - 1]).Some? {
      DirByPathShrinks(t', r, Root, f[..|f| - 1]);
    }
  }

  /** After unlinking the script found at a path, every other script is
      still found at its own path. */
  lemma {:induction false} UnlinkKeepsOthers(t: Tree, path: PathArg, q: PathArg)
    requires Wf(t) && GetScriptByPath(t, path).Some?
    requires GetScriptByPath(t, q).Some? && GetScriptByPath(t, q) != GetScriptByPath(t, path)
    ensures GetScriptByPath(Unlink(t, GetScriptByPath(t, path).value), q) == GetScriptByPath(t, q)
  {
    var script := GetScriptByPath(t, path).value;
    FoundAt(t, path);
    var node := t.scripts[script];
    var key := (node.dir, node.name);
    var t' := t.(entries := t.entries - {key});
    WithoutEntry(t, path);
    LookupWithoutEntry(t, q, key);
    FoundAfterPrune(t', Unlink(t, script), q);
  }

  /** Removing the entry of another script does not change what a path
      finds. */
  lemma {:induction false} LookupWithoutEntry(t: Tree, q: PathArg, key: (DirId, string))
    requires GetScriptByPath(t, q).Some? && key in t.entries && GetScriptByPath(t, q) != Some(t.entries[key])
    ensures GetScriptByPath(t.(entries := t.entries - {key}), q) == GetScriptByPath(t, q)
  {
    var t' := t.(entries := t.entries - {key});
    var g := ParseScriptPath(q);
    ScriptByPath(t, q);
    ScriptByPath(t', q);
    DirByPathChildren(t, t', Root, g[..|g| - 1]);
  }

  /** Pruning keeps every script found where it was. */
  lemma {:induction false} FoundAfterPrune(t: Tree, r: Tree, q: PathArg)
    requires Wf(t) && Pruned(t, r) && GetScriptByPath(t, q).Some?
    ensures GetScriptByPath(r, q) == GetScriptByPath(t, q)
  {
    FoundAt(t, q);
    var g := ParseScriptPath(q);
    var other := t.scripts[GetScriptByPath(t, q).value];
    assert (other.dir, other.name) in r.entries;
    WalkKept(t, r, Root, g[..|g| - 1], other.dir);
    ScriptByPath(r, q);
    ScriptByPath(t, q);
  }

  /** Unlinking takes out exactly the script's own entry, and every child
      entry it removes names a directory left empty. */
  lemma {:induction false} UnlinkOnlyEmpty(t: Tree, path: PathArg)
    requires Wf(t) && GetScriptByPath(t, path).Some?
    ensures var script := GetScriptByPath(t, path).value;
            var r := Unlink(t, script);
            && (forall k :: k in t.entries ==> (k in r.entries <==> t.entries[k] != script))
            && (forall k :: k in r.children ==> k in t.children && r.children[k] == t.children[k])
            && (forall k :: k in t.children && k !in r.children ==> !HasEntries(r, t.children[k]))
  {
    var script := GetScriptByPath(t, path).value;
    FoundAt(t, path);
    var node := t.scripts[script];
    var t' := t.(entries := t.entries - {(node.dir, node.name)});
    WithoutEntry(t, path);
    var r := Unlink(t, script);
    forall k | k in t.children && k !in r.children
      ensures !HasEntries(r, t.children[k])
    {
      assert k in t'.children;
    }
  }

  /** `onDeleteFile` throws exactly when no script is at the file's path,
      and then leaves the tree and the files of scripts alone; the file's
      layer leaves `scriptsByFile` when the file was known, and no other
      file's script changes. */
  lemma {:induction false} DeleteThrows(fs: Filesystem, uri: string, root: string, priority: nat, fileKnown: bool, u: FileId, i: nat)
    requires Wf(fs.tree)
    ensures var r := OnDeleteFile(fs, uri, root, priority, fileKnown);
            && (r.thrown <==> GetScriptByPath(fs.tree, Parts(ParseUri(uri, root))).None?)
            && (r.thrown ==> r.fs.tree == fs.tree && r.fs.filesByScript == fs.filesByScript)
            && r.fs.deps == fs.deps
            && LVM.LayerOf(r.fs.scriptsByFile, u, i) ==
                 (if fileKnown && u == uri && i == priority then None else LVM.LayerOf(fs.scriptsByFile, u, i))
            && (u != uri ==> LVM.Get(r.fs.scriptsByFile, u) == LVM.Get(fs.scriptsByFile, u))
  {
    LVM.DeleteLayers(fs.scriptsByFile, uri, priority, u, i);
  }

  /** When a script is found, its layer for the root's priority leaves
      `filesByScript`; while another file still backs it the tree is kept. */
  lemma {:induction false} DeleteKeepsBacked(fs: Filesystem, uri: string, root: string, priority: nat, fileKnown: bool, i: nat)
    requires Wf(fs.tree) && GetScriptByPath(fs.tree, Parts(ParseUri(uri, root))).Some?
    ensures var script := GetScriptByPath(fs.tree, Parts(ParseUri(uri, root))).value;
            var r := OnDeleteFile(fs, uri, root, priority, fileKnown);
            && LVM.LayerOf(r.fs.filesByScript, script, i) ==
                 (if i == priority then None else LVM.LayerOf(fs.filesByScript, script, i))
            && (LVM.Get(r.fs.filesByScript, script).Some? ==> r.fs.tree == fs.tree)
  {
    var script := GetScriptByPath(fs.tree, Parts(ParseUri(uri, root))).value;
    LVM.DeleteLayers(fs.filesByScript, script, priority, script, i);
  }

  /** When no file backs the script any more, it is no longer found at the
      file's path, every other script still is, and only empty directories
      were unlinked. */
  lemma {:induction false} DeleteUnlinks(fs: Filesystem, uri: string, root: string, priority: nat, fileKnown: bool, q: PathArg)
    requires Wf(fs.tree)
    requires var path := Parts(ParseUri(uri, root));
             && GetScriptByPath(fs.tree, path).Some?
             && LVM.Get(OnDeleteFile(fs, uri, root, priority, fileKnown).fs.filesByScript,
                        GetScriptByPath(fs.tree, path).value).None?
    ensures var path := Parts(ParseUri(uri, root));
            var script := GetScriptByPath(fs.tree, path).value;
            var r := OnDeleteFile(fs, uri, root, priority, fileKnown).fs.tree;
            && GetScriptByPath(r, path).None?
            && (GetScriptByPath(fs.tree, q).Some? && GetScriptByPath(fs.tree, q) != Some(script) ==>
                  GetScriptByPath(r, q) == GetScriptByPath(fs.tree, q))
            && (forall k :: k in fs.tree.children && k !in r.children ==> !HasEntries(r, fs.tree.children[k]))
  {
    var path := Parts(ParseUri(uri, root));
    var script := GetScriptByPath(fs.tree, path).value;
    FoundIsScript(fs.tree, path);
    assert OnDeleteFile(fs, uri, root, priority, fileKnown).fs.tree == Unlink(fs.tree, script);
    UnlinkRemoves(fs.tree, path);
    if GetScriptByPath(fs.tree, q).Some? && GetScriptByPath(fs.tree, q) != Some(script) {
      UnlinkKeepsOthers(fs.tree, path, q);
    }
    UnlinkOnlyEmpty(fs.tree, path);
  }
}
