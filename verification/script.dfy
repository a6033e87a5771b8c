/** `Script`: a script of the script filesystem, with its path, its file,
    and what it computes from its file's parse results: the scripts it
    includes, the callable definitions in scope, and the definitions its
    callable usages resolve to. The parse results of files come in as
    arguments; `D` stands for a callable definition. */
module Scripts {
  import opened Wrappers
  import opened Chars
  import DT = DependencyTrackers
  import LVM = LayeredValueMaps
  import CallableUsages
  import Caches
  import SetMaps
  import opened ScriptFilesystems

  // ---------------------------------------------------------------------------
  // Path

  /** The names of the directories from below the root down to d. */
  function DirPrefix(t: Tree, d: DirId): seq<string>
    requires ParentsOlder(t) && d in t.dirs
    decreases d
  {
    match t.dirs[d].parent
    case None => []
    case Some(p) => DirPrefix(t, p) + [t.dirs[d].name]
  }

  /** The parts of a script's path: its directories' names, then its own. */
  function ScriptParts(t: Tree, s: ScriptId): seq<string>
    requires Wf(t) && s in t.scripts
  {
    DirPrefix(t, t.scripts[s].dir) + [t.scripts[s].name]
  }

  /** `path`: starting from the script's name, the name of each directory
      that has a parent is put in front, followed by `\`. */
  method Path(t: Tree, s: ScriptId) returns (path: string)
    requires Wf(t) && s in t.scripts
    ensures path == Join(ScriptParts(t, s), '\\')
  {
    var node := t.scripts[s];
    path := node.name;
    var dir := node.dir;
    ghost var rest := [node.name];
    while t.dirs[dir].parent.Some?
      invariant dir in t.dirs && |rest| >= 1
      invariant path == Join(rest, '\\')
      invariant DirPrefix(t, dir) + rest == ScriptParts(t, s)
      decreases dir
    {
      var d := t.dirs[dir];
      assert ([d.name] + rest)[1..] == rest;
      path := d.name + "\\" + path;
      assert DirPrefix(t, dir) == DirPrefix(t, d.parent.value) + [d.name];
      assert DirPrefix(t, d.parent.value) + ([d.name] + rest) == DirPrefix(t, dir) + rest;
      rest := [d.name] + rest;
      dir := d.parent.value;
    }
    assert DirPrefix(t, dir) + rest == rest;
  }

  /** A script that is found where it says it is: its entry names it and
      its directory is reachable from the root. */
  ghost predicate Live(t: Tree, s: ScriptId) {
    && s in t.scripts
    && (t.scripts[s].dir, t.scripts[s].name) in t.entries
    && t.entries[(t.scripts[s].dir, t.scripts[s].name)] == s
    && Attached(t, t.scripts[s].dir)
  }

  /** Walking a + b is walking a, then b from where a ends. */
  lemma {:induction false} DirByPathAppend(t: Tree, cur: DirId, a: seq<string>, b: seq<string>)
    ensures DirByPath(t, cur, a + b) ==
              match DirByPath(t, cur, a)
              case None => None
              case Some(x) => DirByPath(t, x, b)
    decreases |a|
  {
    if |a| > 0 {
      assert (a + b)[0] == a[0] && (a + b)[1..] == a[1..] + b;
      if (cur, a[0]) in t.children {
        DirByPathAppend(t, t.children[(cur, a[0])], a[1..], b);
      }
    } else {
      assert a + b == b;
    }
  }

  /** An attached directory is found at its directory names. */
  lemma {:induction false} PrefixFinds(t: Tree, d: DirId)
    requires Wf(t) && Attached(t, d)
    ensures DirByPath(t, Root, DirPrefix(t, d)) == Some(d)
    decreases d
  {
    match t.dirs[d].parent
    case None =>
    case Some(p) =>
      PrefixFinds(t, p);
      DirByPathAppend(t, Root, DirPrefix(t, p), [t.dirs[d].name]);
  }

  /** The directory a walk ends at has, as its directory names, those of
      the start followed by the walk. */
  lemma {:induction false} FoundPrefix(t: Tree, cur: DirId, folders: seq<string>)
    requires ParentsOlder(t) && ChildrenLinked(t) && cur in t.dirs && DirByPath(t, cur, folders).Some?
    ensures DirByPath(t, cur, folders).value in t.dirs
    ensures DirPrefix(t, DirByPath(t, cur, folders).value) == DirPrefix(t, cur) + folders
    decreases |folders|
  {
    if |folders| == 0 {
      assert DirPrefix(t, cur) + folders == DirPrefix(t, cur);
    } else {
      var c := t.children[(cur, folders[0])];
      assert t.dirs[c] == DirNode(folders[0], Some(cur));
      FoundPrefix(t, c, folders[1..]);
      assert DirPrefix(t, cur) + folders == DirPrefix(t, cur) + [folders[0]] + folders[1..];
    }
  }

  /** The script found at a path has the path's parts as its parts. */
  lemma {:induction false} FoundHasParts(t: Tree, path: PathArg)
    requires Wf(t) && GetScriptByPath(t, path).Some?
    ensures GetScriptByPath(t, path).value in t.scripts
    ensures ScriptParts(t, GetScriptByPath(t, path).value) == ParseScriptPath(path)
  {
    FoundAt(t, path);
    var f := ParseScriptPath(path);
    FoundPrefix(t, Root, f[..|f| - 1]);
    assert f[..|f| - 1] + [f[|f| - 1]] == f;
  }

  /** The script found at a path string has that very string as its
      `path`. */
  lemma {:induction false} FoundHasPath(t: Tree, path: string)
    requires Wf(t) && GetScriptByPath(t, Text(path)).Some?
    ensures GetScriptByPath(t, Text(path)).value in t.scripts
    ensures Join(ScriptParts(t, GetScriptByPath(t, Text(path)).value), '\\') == path
  {
    FoundHasParts(t, Text(path));
    JoinSplit(path, '\\');
  }

  /** A live script is found at its own parts, and at its `path` when no
      name along it holds a `\`. */
  lemma {:induction false} FoundByOwnPath(t: Tree, s: ScriptId)
    requires Wf(t) && Live(t, s)
    ensures GetScriptByPath(t, Parts(ScriptParts(t, s))) == Some(s)
    ensures (forall k :: 0 <= k < |ScriptParts(t, s)| ==> '\\' !in ScriptParts(t, s)[k]) ==>
              GetScriptByPath(t, Text(Join(ScriptParts(t, s), '\\'))) == Some(s)
  {
    var node := t.scripts[s];
    var parts := ScriptParts(t, s);
    PrefixFinds(t, node.dir);
    ScriptByParts(t, DirPrefix(t, node.dir), node.name);
    if forall k :: 0 <= k < |parts| ==> '\\' !in parts[k] {
      SplitJoin(parts, '\\');
      ScriptByPath(t, Text(Join(parts, '\\')));
      ScriptByPath(t, Parts(parts));
    }
  }

  // ---------------------------------------------------------------------------
  // File

  /** `file`: the file of the script's highest layer; a script no file
      backs throws. */
  function File(fs: Filesystem, s: ScriptId): (r: Result<FileId>)
    requires Wf(fs.tree) && s in fs.tree.scripts
  {
    match LVM.Get(fs.filesByScript, s)
    case None => Failure("Script " + Join(ScriptParts(fs.tree, s), '\\') + " is not represented by a file.")
    case Some(f) => Success(f)
  }

  /** The file is the one at the highest priority layer of the script's
      files; it throws only when no layer holds a file. */
  lemma {:induction false} FileIsTopLayer(fs: Filesystem, s: ScriptId)
    requires Wf(fs.tree) && s in fs.tree.scripts
    ensures File(fs, s).Failure? <==> forall i: nat :: LVM.LayerOf(fs.filesByScript, s, i).None?
    ensures File(fs, s).Success? ==>
              exists l: nat :: LVM.LayerOf(fs.filesByScript, s, l) == Some(File(fs, s).value)
                && forall j: nat :: j > l ==> LVM.LayerOf(fs.filesByScript, s, j).None?
  {
    LVM.GetIsHighestLayer(fs.filesByScript, s);
  }

  // ---------------------------------------------------------------------------
  // Included scripts

  /** The loop's `dependencies.add(this, path)` for every include path. */
  function AddDependencies(deps: DT.Tracker, s: ScriptId, paths: seq<string>): DT.Tracker
    decreases |paths|
  {
    if |paths| == 0 then deps
    else AddDependencies(DT.Add(deps, s, paths[0]), s, paths[1..])
  }

  /** The loop's result map, in insertion order, given what is found at
      each include path: each path something is found at, with what is
      found, once, at its first occurrence. */
  function Resolved(paths: seq<string>, found: seq<Option<ScriptId>>): (r: seq<(string, ScriptId)>)
    requires |found| == |paths|
    ensures forall i :: 0 <= i < |r| ==> exists k :: 0 <= k < |paths| && paths[k] == r[i].0 && found[k] == Some(r[i].1)
    ensures forall i, j :: 0 <= i < j < |r| ==> r[i].0 != r[j].0
    decreases |paths|
  {
    if |paths| == 0 then []
    else
      var n := |paths| - 1;
      var prev := Resolved(paths[..n], found[..n]);
      if found[n].None? || exists i :: 0 <= i < |prev| && prev[i].0 == paths[n] then prev
      else
        assert forall i :: 0 <= i < |prev| ==> exists k :: 0 <= k < n && paths[k] == prev[i].0 && found[k] == Some(prev[i].1) by {
          forall i | 0 <= i < |prev|
            ensures exists k :: 0 <= k < n && paths[k] == prev[i].0 && found[k] == Some(prev[i].1)
          {
            var k :| 0 <= k < n && paths[..n][k] == prev[i].0 && found[..n][k] == Some(prev[i].1);
          }
        }
        prev + [(paths[n], found[n].value)]
  }

  /** What is found at each include path. */
  function FoundAtPaths(t: Tree, paths: seq<string>): (found: seq<Option<ScriptId>>)
    ensures |found| == |paths| && forall i :: 0 <= i < |paths| ==> found[i] == GetScriptByPath(t, Text(paths[i]))
  {
    seq(|paths|, i requires 0 <= i < |paths| => GetScriptByPath(t, Text(paths[i])))
  }

  /** What `getIncludedScripts` leaves: the tracker with the new edges, and
      the included scripts by path. */
  datatype Included = Included(deps: DT.Tracker, scripts: seq<(string, ScriptId)>)

  /** `getIncludedScripts`, given the include paths of the script's file:
      every include path becomes a dependency, found or not, and the scripts
      found at them are the result. A script without a file throws before
      anything is added. */
  function IncludedScripts(fs: Filesystem, s: ScriptId, paths: seq<string>): (r: Result<Included>)
    requires Wf(fs.tree) && s in fs.tree.scripts
  {
    match File(fs, s)
    case Failure(e) => Failure(e)
    case Success(_) => Success(Included(AddDependencies(fs.deps, s, paths), Resolved(paths, FoundAtPaths(fs.tree, paths))))
  }

  /** After the loop, the script depends on exactly the include paths
      besides what it depended on before, and nothing else changes, whatever
      earlier invalidations left in the tracker. Two directions that were
      mirrored stay mirrored, and every dependency listed among the
      dependents stays listed. */
  lemma {:induction false} AddDependenciesEdges(deps: DT.Tracker, s: ScriptId, paths: seq<string>, d: ScriptId, p: string)
    ensures var r := AddDependencies(deps, s, paths);
            && (DT.Mirrored(deps) ==> DT.Mirrored(r))
            && (DT.Covers(deps) ==> DT.Covers(r))
            && (DT.Depends(r, d, p) <==> DT.Depends(deps, d, p) || (d == s && p in paths))
    decreases |paths|
  {
    if |paths| > 0 {
      var deps' := DT.Add(deps, s, paths[0]);
      if DT.Mirrored(deps) {
        DT.AddKeepsMirrored(deps, s, paths[0]);
      }
      if DT.Covers(deps) {
        DT.OperationsKeepCovers(deps, s, paths[0]);
      }
      DT.AddEdge(deps, s, paths[0], d, p);
      AddDependenciesEdges(deps', s, paths[1..], d, p);
      assert p in paths <==> p == paths[0] || p in paths[1..];
    }
  }

  /** `AddDependenciesEdges` for every edge at once. */
  lemma AddDependenciesAll(deps: DT.Tracker, s: ScriptId, paths: seq<string>)
    ensures var r := AddDependencies(deps, s, paths);
            && (DT.Mirrored(deps) ==> DT.Mirrored(r))
            && (DT.Covers(deps) ==> DT.Covers(r))
            && (forall d, q :: DT.Depends(r, d, q) <==> DT.Depends(deps, d, q) || (d == s && q in paths))
  {
    AddDependenciesEdges(deps, s, paths, s, "");
    forall d, q
      ensures DT.Depends(AddDependencies(deps, s, paths), d, q) <==> DT.Depends(deps, d, q) || (d == s && q in paths)
    {
      AddDependenciesEdges(deps, s, paths, d, q);
    }
  }

  /** Every path something is found at is in the result, with what is
      found at its first occurrence. */
  lemma {:induction false} ResolvedComplete(paths: seq<string>, found: seq<Option<ScriptId>>, k: nat)
    requires |found| == |paths| && k < |paths| && found[k].Some?
    requires forall j :: 0 <= j < k ==> paths[j] != paths[k]
    ensures exists i :: 0 <= i < |Resolved(paths, found)| && Resolved(paths, found)[i] == (paths[k], found[k].value)
    decreases |paths|
  {
    var n := |paths| - 1;
    var prev := Resolved(paths[..n], found[..n]);
    if k < n {
      ResolvedComplete(paths[..n], found[..n], k);
      var i :| 0 <= i < |prev| && prev[i] == (paths[k], found[k].value);
      assert Resolved(paths, found)[i] == prev[i];
    } else {
      forall i | 0 <= i < |prev|
        ensures prev[i].0 != paths[n]
      {
        var j :| 0 <= j < n && paths[..n][j] == prev[i].0 && found[..n][j] == Some(prev[i].1);
      }
      assert Resolved(paths, found)[|prev|] == (paths[k], found[k].value);
    }
  }

  /** The included scripts are exactly the scripts found at include paths,
      each with the script found at its path; the only new dependencies are
      those of the script on every include path, on any tracker. */
  lemma {:induction false} IncludedScriptsExact(fs: Filesystem, s: ScriptId, paths: seq<string>, p: string)
    requires Wf(fs.tree) && s in fs.tree.scripts
    ensures var r := IncludedScripts(fs, s, paths);
            && (r.Failure? <==> LVM.Get(fs.filesByScript, s).None?)
            && (r.Success? ==>
                  && (DT.Mirrored(fs.deps) ==> DT.Mirrored(r.value.deps))
                  && (DT.Covers(fs.deps) ==> DT.Covers(r.value.deps))
                  && (forall d, q :: DT.Depends(r.value.deps, d, q) <==> DT.Depends(fs.deps, d, q) || (d == s && q in paths))
                  && (forall i :: 0 <= i < |r.value.scripts| && r.value.scripts[i].0 == p ==>
                        GetScriptByPath(fs.tree, Text(p)) == Some(r.value.scripts[i].1))
                  && ((exists i :: 0 <= i < |r.value.scripts| && r.value.scripts[i].0 == p) <==>
                        p in paths && GetScriptByPath(fs.tree, Text(p)).Some?))
  {
    AddDependenciesAll(fs.deps, s, paths);
    var found := FoundAtPaths(fs.tree, paths);
    if p in paths && GetScriptByPath(fs.tree, Text(p)).Some? {
      var k :| 0 <= k < |paths| && paths[k] == p;
      var k0 := FirstOccurrence(paths, k, 0);
      ResolvedComplete(paths, found, k0);
    }
  }

  /** The first occurrence of `xs[k]`, searched from `i` on when it does
      not occur before `i`. */
  function FirstOccurrence<T(==)>(xs: seq<T>, k: nat, i: nat): (k0: nat)
    requires i <= k < |xs| && forall j :: 0 <= j < i ==> xs[j] != xs[k]
    ensures i <= k0 <= k && xs[k0] == xs[k] && forall j :: 0 <= j < k0 ==> xs[j] != xs[k]
    decreases k - i
  {
    if xs[i] == xs[k] then i else FirstOccurrence(xs, k, i + 1)
  }

  // ---------------------------------------------------------------------------
  // Callable definitions in scope

  /** The definitions of several scripts in turn, each name set again by
      every later script defining it. */
  function Merge<D>(ds: seq<map<string, D>>): map<string, D>
    decreases |ds|
  {
    if |ds| == 0 then map[] else Merge(ds[..|ds| - 1]) + ds[|ds| - 1]
  }

  /** A name is in the merge exactly when some script defines it. */
  lemma {:induction false} MergeHas<D>(ds: seq<map<string, D>>, name: string)
    ensures name in Merge(ds) <==> exists i :: 0 <= i < |ds| && name in ds[i]
    decreases |ds|
  {
    if |ds| > 0 {
      var prev := ds[..|ds| - 1];
      MergeHas(prev, name);
      if name in Merge(prev) {
        var i :| 0 <= i < |prev| && name in prev[i];
        assert ds[i] == prev[i];
      }
      if exists i :: 0 <= i < |ds| && name in ds[i] {
        var i :| 0 <= i < |ds| && name in ds[i];
        if i < |prev| {
          assert name in prev[i];
        }
      }
    }
  }

  /** A name in the merge has the definition of the last script defining
      it. */
  lemma {:induction false} MergeLastWins<D>(ds: seq<map<string, D>>, name: string)
    requires name in Merge(ds)
    ensures exists i :: 0 <= i < |ds| && name in ds[i] && Merge(ds)[name] == ds[i][name]
              && forall j :: i < j < |ds| ==> name !in ds[j]
    decreases |ds|
  {
    var prev := ds[..|ds| - 1];
    var last := ds[|ds| - 1];
    if name in last {
      assert Merge(ds)[name] == last[name];
    } else {
      assert name in Merge(prev);
      MergeLastWins(prev, name);
      var i :| 0 <= i < |prev| && name in prev[i] && Merge(prev)[name] == prev[i][name]
               && forall j :: i < j < |prev| ==> name !in prev[j];
      assert ds[i] == prev[i];
      assert forall j :: i < j < |ds| - 1 ==> ds[j] == prev[j];
    }
  }

  /** The scripts whose definitions are in scope: the included scripts, in
      order, then the script itself. */
  function ScopeScripts(included: seq<(string, ScriptId)>, s: ScriptId): (r: seq<ScriptId>)
    ensures |r| == |included| + 1 && r[|included|] == s
    ensures forall i :: 0 <= i < |included| ==> r[i] == included[i].1
  {
    seq(|included|, i requires 0 <= i < |included| => included[i].1) + [s]
  }

  /** The first of the scripts without a file, if any. */
  function FirstWithoutFile(fs: Filesystem, ss: seq<ScriptId>): (r: Option<nat>)
    ensures r.Some? ==> r.value < |ss| && LVM.Get(fs.filesByScript, ss[r.value]).None?
    ensures r.Some? ==> forall j :: 0 <= j < r.value ==> LVM.Get(fs.filesByScript, ss[j]).Some?
    ensures r.None? ==> forall j :: 0 <= j < |ss| ==> LVM.Get(fs.filesByScript, ss[j]).Some?
    decreases |ss|
  {
    if |ss| == 0 then None
    else if LVM.Get(fs.filesByScript, ss[0]).None? then Some(0)
    else match FirstWithoutFile(fs, ss[1..])
      case None => None
      case Some(i) => Some(i + 1)
  }

  /** Each script's definitions by name; a file whose definitions are
      undefined is skipped, which adds nothing. */
  function DefsOfScripts<D>(ss: seq<ScriptId>, defsOf: map<ScriptId, map<string, D>>): (ds: seq<map<string, D>>)
    ensures |ds| == |ss|
    ensures forall i :: 0 <= i < |ss| ==> ds[i] == if ss[i] in defsOf then defsOf[ss[i]] else map[]
  {
    seq(|ss|, i requires 0 <= i < |ss| => if ss[i] in defsOf then defsOf[ss[i]] else map[])
  }

  /** `getCallableDefsScope`, given each script's definitions by lower-case
      name (`defsOf`, missing where they are undefined): the definitions of
      the included scripts, then the script's own, later ones set again over
      earlier ones. Reading the `file` of a script without one throws, the
      first such script in that order naming the error. */
  function Scope<D>(fs: Filesystem, s: ScriptId, included: seq<(string, ScriptId)>,
                    defsOf: map<ScriptId, map<string, D>>): (r: Result<map<string, D>>)
    requires Wf(fs.tree) && s in fs.tree.scripts
    requires forall i :: 0 <= i < |included| ==> included[i].1 in fs.tree.scripts
  {
    var ss := ScopeScripts(included, s);
    match FirstWithoutFile(fs, ss)
    case Some(i) => Failure(File(fs, ss[i]).error)
    case None => Success(Merge(DefsOfScripts(ss, defsOf)))
  }

  /** The merge of the scope's scripts holds the script's own definitions;
      any other name in it is defined by an included script, and has the
      definition of the last included script defining it. */
  lemma {:induction false} ScopeMergeOwnWins<D>(s: ScriptId, included: seq<(string, ScriptId)>,
                                                defsOf: map<ScriptId, map<string, D>>, name: string)
    ensures var scope := Merge(DefsOfScripts(ScopeScripts(included, s), defsOf));
            && (s in defsOf && name in defsOf[s] ==> name in scope && scope[name] == defsOf[s][name])
            && (name in scope && !(s in defsOf && name in defsOf[s]) ==>
                  exists i :: 0 <= i < |included| && included[i].1 in defsOf && name in defsOf[included[i].1]
                    && scope[name] == defsOf[included[i].1][name]
                    && forall j :: i < j < |included| ==> !(included[j].1 in defsOf && name in defsOf[included[j].1]))
  {
    var ss := ScopeScripts(included, s);
    var ds := DefsOfScripts(ss, defsOf);
    MergeHas(ds, name);
    if name in Merge(ds) {
      MergeLastWins(ds, name);
    }
  }

  /** On success the scope is that merge. */
  lemma {:induction false} ScopeIsMerge<D>(fs: Filesystem, s: ScriptId, included: seq<(string, ScriptId)>,
                                           defsOf: map<ScriptId, map<string, D>>)
    requires Wf(fs.tree) && s in fs.tree.scripts
    requires forall i :: 0 <= i < |included| ==> included[i].1 in fs.tree.scripts
    requires Scope(fs, s, included, defsOf).Success?
    ensures Scope(fs, s, included, defsOf).value == Merge(DefsOfScripts(ScopeScripts(included, s), defsOf))
  {
  }

  /** The scope throws exactly when the script or an included script has no
      file. */
  lemma {:induction false} ScopeThrows<D>(fs: Filesystem, s: ScriptId, included: seq<(string, ScriptId)>,
                                          defsOf: map<ScriptId, map<string, D>>)
    requires Wf(fs.tree) && s in fs.tree.scripts
    requires forall i :: 0 <= i < |included| ==> included[i].1 in fs.tree.scripts
    ensures Scope(fs, s, included, defsOf).Failure? <==>
              LVM.Get(fs.filesByScript, s).None? ||
              exists i :: 0 <= i < |included| && LVM.Get(fs.filesByScript, included[i].1).None?
  {
    var ss := ScopeScripts(included, s);
    if LVM.Get(fs.filesByScript, s).None? {
      assert LVM.Get(fs.filesByScript, ss[|included|]).None?;
    }
  }

  // ---------------------------------------------------------------------------
  // Definitions of callable usages

  type Usage = CallableUsages.CallableUsage

  /** The path text of a path-qualified usage. */
  function UsagePath(u: Usage): Option<string> {
    match u.path
    case None => None
    case Some(p) => Some(p.name)
  }

  /** `getDef`: the lower-case name is looked up in the scope when the usage
      has no path, otherwise in the definitions of the script found at the
      path (none when no script is found there). Reading the `file` of a
      found script without one throws. */
  function DefOf<D>(fs: Filesystem, u: Usage, scope: map<string, D>, defsOf: map<ScriptId, map<string, D>>): (r: Result<Option<D>>)
    requires Wf(fs.tree)
  {
    var nameLc := ToLower(u.name.name);
    match UsagePath(u)
    case None => Success(if nameLc in scope then Some(scope[nameLc]) else None)
    case Some(p) =>
      match GetScriptByPath(fs.tree, Text(p))
      case None => Success(None)
      case Some(target) =>
        FoundIsScript(fs.tree, Text(p));
        match File(fs, target)
        case Failure(e) => Failure(e)
        case Success(_) => Success(if target in defsOf && nameLc in defsOf[target] then Some(defsOf[target][nameLc]) else None)
  }

  /** Every usage's lookup, in order. The lookups read the tree and the
      files but not the tracker, so doing them ahead of the loop's `add`s
      gives the same results. */
  function Lookups<D>(fs: Filesystem, usages: seq<Usage>, scope: map<string, D>, defsOf: map<ScriptId, map<string, D>>): (ls: seq<Result<Option<D>>>)
    requires Wf(fs.tree)
    ensures |ls| == |usages| && forall i :: 0 <= i < |usages| ==> ls[i] == DefOf(fs, usages[i], scope, defsOf)
  {
    seq(|usages|, i requires 0 <= i < |usages| => DefOf(fs, usages[i], scope, defsOf))
  }

  /** Every usage's path, in order. */
  function UsagePaths(usages: seq<Usage>): (ps: seq<Option<string>>)
    ensures |ps| == |usages| && forall i :: 0 <= i < |usages| ==> ps[i] == UsagePath(usages[i])
  {
    seq(|usages|, i requires 0 <= i < |usages| => UsagePath(usages[i]))
  }

  /** The first lookup that throws. */
  function FirstFailure<D>(ls: seq<Result<Option<D>>>): (r: Option<nat>)
    ensures r.Some? ==> r.value < |ls| && ls[r.value].Failure?
    ensures r.Some? ==> forall j :: 0 <= j < r.value ==> ls[j].Success?
    ensures r.None? ==> forall j :: 0 <= j < |ls| ==> ls[j].Success?
    decreases |ls|
  {
    if |ls| == 0 then None
    else
      var n := |ls| - 1;
      match FirstFailure(ls[..n])
      case Some(i) => Some(i)
      case None => if ls[n].Failure? then Some(n) else None
  }

  /** The state the usage loop leaves: the tracker, the definitions found
      by usage (its index), and the error if a lookup threw. */
  datatype Resolution<D> = Resolution(deps: DT.Tracker, defs: map<nat, D>, error: Option<string>)

  /** The usage loop over the usages' paths and lookups in order: a path
      becomes a dependency before the lookup; a lookup that finds nothing is
      skipped; one that throws ends the loop, the dependencies added so far
      staying added. */
  function ResolveLoop<D>(deps: DT.Tracker, s: ScriptId, paths: seq<Option<string>>, ls: seq<Result<Option<D>>>): Resolution<D>
    requires |paths| == |ls|
    decreases |ls|
  {
    if |ls| == 0 then Resolution(deps, map[], None)
    else
      var n := |ls| - 1;
      var prev := ResolveLoop(deps, s, paths[..n], ls[..n]);
      if prev.error.Some? then prev
      else
        var deps' := if paths[n].Some? then DT.Add(prev.deps, s, paths[n].value) else prev.deps;
        match ls[n]
        case Failure(e) => Resolution(deps', prev.defs, Some(e))
        case Success(None) => Resolution(deps', prev.defs, None)
        case Success(Some(d)) => Resolution(deps', prev.defs[n := d], None)
  }

  /** `getCallableUsageDefs`, given the usages of the script's file and the
      outcome of `getCallableDefsScope`: the script's `file` is read first,
      then the scope awaited; either throwing ends it before the loop. */
  function UsageDefs<D>(fs: Filesystem, s: ScriptId, usages: seq<Usage>, scope: Result<map<string, D>>,
                        defsOf: map<ScriptId, map<string, D>>): Resolution<D>
    requires Wf(fs.tree) && s in fs.tree.scripts
  {
    match File(fs, s)
    case Failure(e) => Resolution(fs.deps, map[], Some(e))
    case Success(_) =>
      match scope
      case Failure(e) => Resolution(fs.deps, map[], Some(e))
      case Success(sc) => ResolveLoop(fs.deps, s, UsagePaths(usages), Lookups(fs, usages, sc, defsOf))
  }

  /** The number of lookups the loop uses before it stops: all of them, or
      up to the one that throws. */
  function Looked<D>(ls: seq<Result<Option<D>>>): nat {
    match FirstFailure(ls)
    case None => |ls|
    case Some(i) => i
  }

  /** The loop throws the error of the first lookup that throws; the
      definitions found are exactly those of the lookups before it that
      found one, each the definition found. */
  lemma {:induction false} ResolveLoopDefs<D>(deps: DT.Tracker, s: ScriptId, paths: seq<Option<string>>, ls: seq<Result<Option<D>>>, i: nat)
    requires |paths| == |ls|
    ensures var r := ResolveLoop(deps, s, paths, ls);
            var k := Looked(ls);
            && (r.error.None? <==> FirstFailure(ls).None?)
            && (r.error.Some? ==> r.error == Some(ls[k].error))
            && (i in r.defs <==> i < k && ls[i].value.Some?)
            && (i in r.defs ==> r.defs[i] == ls[i].value.value)
    decreases |ls|
  {
    if |ls| > 0 {
      var n := |ls| - 1;
      ResolveLoopDefs(deps, s, paths[..n], ls[..n], i);
      if i < n {
        assert ls[..n][i] == ls[i];
      }
      var k := FirstFailure(ls[..n]);
      if k.Some? {
        assert ls[..n][k.value] == ls[k.value];
      }
    }
  }

  /** The number of usages whose path the loop adds: those it looks up,
      and the one that throws. */
  function Added<D>(ls: seq<Result<Option<D>>>): nat {
    match FirstFailure(ls)
    case None => |ls|
    case Some(i) => i + 1
  }

  /** The loop ends in an error exactly when a lookup throws. */
  lemma {:induction false} ResolveLoopError<D>(deps: DT.Tracker, s: ScriptId, paths: seq<Option<string>>, ls: seq<Result<Option<D>>>)
    requires |paths| == |ls|
    ensures ResolveLoop(deps, s, paths, ls).error.None? <==> FirstFailure(ls).None?
    decreases |ls|
  {
    if |ls| > 0 {
      ResolveLoopError(deps, s, paths[..|ls| - 1], ls[..|ls| - 1]);
    }
  }

  /** The loop keeps a mirrored tracker mirrored and a covering one covering. */
  lemma {:induction false} ResolveLoopKeeps<D>(deps: DT.Tracker, s: ScriptId, paths: seq<Option<string>>, ls: seq<Result<Option<D>>>)
    requires |paths| == |ls|
    ensures var r := ResolveLoop(deps, s, paths, ls);
            && (DT.Mirrored(deps) ==> DT.Mirrored(r.deps))
            && (DT.Covers(deps) ==> DT.Covers(r.deps))
    decreases |ls|
  {
    if |ls| > 0 {
      var n := |ls| - 1;
      ResolveLoopKeeps(deps, s, paths[..n], ls[..n]);
      var prev := ResolveLoop(deps, s, paths[..n], ls[..n]);
      if prev.error.None? && paths[n].Some? {
        if DT.Mirrored(prev.deps) {
          DT.AddKeepsMirrored(prev.deps, s, paths[n].value);
        }
        if DT.Covers(prev.deps) {
          DT.OperationsKeepCovers(prev.deps, s, paths[n].value);
        }
      }
    }
  }

  /** The loop makes the script depend on the path of every usage it
      reached, and on nothing else new, whatever earlier invalidations left in
      the tracker; mirrored directions stay mirrored and listed dependencies
      stay listed. */
  lemma {:induction false} ResolveLoopDeps<D>(deps: DT.Tracker, s: ScriptId, paths: seq<Option<string>>, ls: seq<Result<Option<D>>>,
                                              d: ScriptId, p: string)
    requires |paths| == |ls|
    ensures var r := ResolveLoop(deps, s, paths, ls);
            && (DT.Mirrored(deps) ==> DT.Mirrored(r.deps))
            && (DT.Covers(deps) ==> DT.Covers(r.deps))
            && (DT.Depends(r.deps, d, p) <==>
                  DT.Depends(deps, d, p) || (d == s && exists i :: 0 <= i < Added(ls) && paths[i] == Some(p)))
    decreases |ls|
  {
    ResolveLoopKeeps(deps, s, paths, ls);
    if |ls| > 0 {
      var n := |ls| - 1;
      var pre := paths[..n];
      ResolveLoopDeps(deps, s, pre, ls[..n], d, p);
      ResolveLoopError(deps, s, pre, ls[..n]);
      var prev := ResolveLoop(deps, s, pre, ls[..n]);
      var m := Added(ls[..n]);
      assert forall i :: 0 <= i < m ==> pre[i] == paths[i];
      if prev.error.None? {
        assert m == n && Added(ls) == n + 1;
        if paths[n].Some? {
          DT.AddEdge(prev.deps, s, paths[n].value, d, p);
        }
        if d == s && exists i :: 0 <= i < n + 1 && paths[i] == Some(p) {
          var i :| 0 <= i < n + 1 && paths[i] == Some(p);
          if i < n {
            assert pre[i] == Some(p);
          }
        }
      } else {
        assert Added(ls) == m;
      }
    }
  }

  // ---------------------------------------------------------------------------
  // Invalidation

  /** The filesystem with every script's cache, keyed by the names of the
      three cached results. */
  datatype Workspace<V> = Workspace(fs: Filesystem, caches: map<ScriptId, Caches.Cache<string, V>>)

  /** `onDependencyChanged`: the script's cache is cleared and its
      dependencies dropped with the tracker's `clear` as written, which
      deletes the script's forward set and leaves it listed among the
      dependents of every path it depended on. */
  function DependencyChanged<V>(w: Workspace<V>, d: ScriptId): (r: Workspace<V>)
  {
    Workspace(w.fs.(deps := DT.ClearedAsWritten(w.fs.deps, d)),
              if d in w.caches then w.caches[d := Caches.Cleared(w.caches[d])] else w.caches)
  }

  /** The scripts registered as depending on a path. */
  function DependentsOf(deps: DT.Tracker, path: string): set<ScriptId> {
    match DT.GetDependents(deps, path)
    case None => {}
    case Some(ds) => ds
  }

  /** What invalidating the scripts of `ds` leaves: their caches cleared,
      every other cache as it was. */
  ghost predicate CachesCleared<V>(w: Workspace<V>, r: Workspace<V>, ds: set<ScriptId>) {
    && r.caches.Keys == w.caches.Keys
    && forall d :: d in w.caches ==> r.caches[d] == if d in ds then Caches.Cleared(w.caches[d]) else w.caches[d]
  }

  /** What invalidating the scripts of `ds` leaves in the tracker: none of
      them has dependencies any more, every other script keeps its own, and
      the dependents of every path are as they were, so the scripts of `ds`
      stay listed where they were listed. */
  ghost predicate EdgesCleared(w: Workspace, r: Workspace, ds: set<ScriptId>) {
    && (forall d :: d in ds ==> DT.GetDependencies(r.fs.deps, d).None?)
    && (forall d :: d !in ds ==> DT.GetDependencies(r.fs.deps, d) == DT.GetDependencies(w.fs.deps, d))
    && (forall p :: DT.GetDependents(r.fs.deps, p) == DT.GetDependents(w.fs.deps, p))
  }

  /** The notification loop of `onCreated` and `onChanged`: every script
      depending on the path gets `onDependencyChanged`. The written `clear`
      never changes the set being walked, so the loop visits exactly the
      scripts listed when it starts. */
  method NotifyDependents<V>(w: Workspace<V>, path: string) returns (r: Workspace<V>)
    ensures r.fs == w.fs.(deps := r.fs.deps)
    ensures CachesCleared(w, r, DependentsOf(w.fs.deps, path))
    ensures EdgesCleared(w, r, DependentsOf(w.fs.deps, path))
  {
    var ds := DependentsOf(w.fs.deps, path);
    r := w;
    var todo := ds;
    while todo != {}
      invariant todo <= ds
      invariant r.fs == w.fs.(deps := r.fs.deps)
      invariant CachesCleared(w, r, ds - todo)
      invariant EdgesCleared(w, r, ds - todo)
      decreases todo
    {
      var d :| d in todo;
      var r' := DependencyChanged(r, d);
      ClearStep(w, r, r', ds - todo, d);
      r := r';
      assert ds - (todo - {d}) == (ds - todo) + {d};
      todo := todo - {d};
    }
    assert ds - todo == ds;
  }

  /** One more script invalidated keeps the loop's invariants. */
  lemma {:induction false} ClearStep<V>(w: Workspace<V>, r: Workspace<V>, r': Workspace<V>, done: set<ScriptId>, d: ScriptId)
    requires d !in done && r' == DependencyChanged(r, d)
    requires CachesCleared(w, r, done) && EdgesCleared(w, r, done)
    ensures CachesCleared(w, r', done + {d}) && EdgesCleared(w, r', done + {d})
  {
    forall d' | d' in done + {d}
      ensures DT.GetDependencies(r'.fs.deps, d').None?
    {
      SetMaps.ClearThenGet(r.fs.deps.byDependent, d, d');
    }
    forall d' | d' !in done + {d}
      ensures DT.GetDependencies(r'.fs.deps, d') == DT.GetDependencies(w.fs.deps, d')
    {
      SetMaps.ClearThenGet(r.fs.deps.byDependent, d, d');
    }
  }

  /** `onCreated`: the scripts depending on the new script's path are
      invalidated; the script's own cache is left alone unless it depends on
      its own path. */
  method OnCreated<V>(w: Workspace<V>, s: ScriptId) returns (r: Workspace<V>)
    requires Wf(w.fs.tree) && s in w.fs.tree.scripts
    ensures r.fs == w.fs.(deps := r.fs.deps)
    ensures CachesCleared(w, r, DependentsOf(w.fs.deps, Join(ScriptParts(w.fs.tree, s), '\\')))
    ensures EdgesCleared(w, r, DependentsOf(w.fs.deps, Join(ScriptParts(w.fs.tree, s), '\\')))
  {
    var path := Path(w.fs.tree, s);
    r := NotifyDependents(w, path);
  }

  /** `onChanged`: the scripts depending on the script's path are
      invalidated, then the script itself. */
  method OnChanged<V>(w: Workspace<V>, s: ScriptId) returns (r: Workspace<V>)
    requires Wf(w.fs.tree) && s in w.fs.tree.scripts
    ensures r.fs == w.fs.(deps := r.fs.deps)
    ensures CachesCleared(w, r, DependentsOf(w.fs.deps, Join(ScriptParts(w.fs.tree, s), '\\')) + {s})
    ensures EdgesCleared(w, r, DependentsOf(w.fs.deps, Join(ScriptParts(w.fs.tree, s), '\\')) + {s})
  {
    var path := Path(w.fs.tree, s);
    var ds := DependentsOf(w.fs.deps, path);
    var r1 := NotifyDependents(w, path);
    r := DependencyChanged(r1, s);
    if s in ds {
      if s in w.caches {
        Caches.ClearIdempotent(w.caches[s]);
      }
      assert ds + {s} == ds;
      forall d' | d' in ds
        ensures DT.GetDependencies(r.fs.deps, d').None?
      {
        SetMaps.ClearThenGet(r1.fs.deps.byDependent, s, d');
      }
      forall d' | d' !in ds
        ensures DT.GetDependencies(r.fs.deps, d') == DT.GetDependencies(w.fs.deps, d')
      {
        SetMaps.ClearThenGet(r1.fs.deps.byDependent, s, d');
      }
    } else {
      ClearStep(w, r1, r, ds, s);
    }
  }

  /** Invalidation keeps every remaining dependency listed in the inverse
      direction: a script whose dependencies survive is still found by
      `getDependents` for each of them, so no later change misses it. */
  lemma {:induction false} InvalidationKeepsCovers(w: Workspace, r: Workspace, ds: set<ScriptId>)
    requires DT.Covers(w.fs.deps) && EdgesCleared(w, r, ds)
    ensures DT.Covers(r.fs.deps)
  {
    forall d, p | DT.Depends(r.fs.deps, d, p)
      ensures DT.ListedDependent(r.fs.deps, d, p)
    {
      if d !in ds {
        assert DT.GetDependencies(r.fs.deps, d) == DT.GetDependencies(w.fs.deps, d);
        assert DT.Depends(w.fs.deps, d, p);
        assert DT.GetDependents(r.fs.deps, p) == DT.GetDependents(w.fs.deps, p);
      }
    }
  }

  /** A script notified by `onChanged` is listed again the next time the
      path changes, although its dependencies were dropped: the written
      `clear` never takes it out of the dependents of the path. */
  lemma {:induction false} NotifiedStayListed<V>(w: Workspace<V>, r: Workspace<V>, path: string, ds: set<ScriptId>)
    requires ds == DependentsOf(w.fs.deps, path) && EdgesCleared(w, r, ds)
    ensures DependentsOf(r.fs.deps, path) == ds
    ensures forall d :: d in ds ==> DT.GetDependencies(r.fs.deps, d).None?
  {
  }

  /** After `onChanged`, neither the script nor any script that depended on
      its path has a cached value left, as long as every value was tracked
      by a slot. */
  lemma {:induction false} ChangedForgets<V>(w: Workspace<V>, r: Workspace<V>, ds: set<ScriptId>, d: ScriptId, k: string)
    requires CachesCleared(w, r, ds) && d in ds && d in w.caches && Caches.Tracked(w.caches[d])
    ensures Caches.GetCached(r.caches[d], k).None?
  {
    Caches.ClearedForgets(w.caches[d], k);
  }
}
