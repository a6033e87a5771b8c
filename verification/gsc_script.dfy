/** `GscScript` of the newer store: a script's files kept in priority
    slots (a JavaScript array with holes, one slot per workspace folder
    priority) together with a map from each file to the priority it was
    added at. A file is known by its identity. */
module GscScripts {
  import opened Wrappers
  import opened Chars
  import LV = LayeredValues
  import opened ScriptFilesystems
  import Scripts

  datatype Slots<F> = Slots(files: LV.LayeredValue<F>, priorities: map<F, nat>)

  /** The constructor: no slot filled, no priority recorded. */
  function NewSlots<F>(): Slots<F> {
    Slots(LV.LayeredValue([]), map[])
  }

  /** `fileCount`: the size of the file-to-priority map. */
  function FileCount<F>(s: Slots<F>): nat {
    |s.priorities|
  }

  /** `getFile`: the file of the given slot, or without a priority the file
      of the highest filled slot (`findLast`). */
  function GetFile<F>(s: Slots<F>, priority: Option<nat>): Option<F> {
    match priority
    case Some(p) => LV.At(s.files, p)
    case None => LV.Top(s.files)
  }

  /** `addFile`: the slot is overwritten and the file's priority recorded. */
  function AddFile<F>(s: Slots<F>, f: F, priority: nat): Slots<F> {
    Slots(LV.Set(s.files, priority, f), s.priorities[f := priority])
  }

  /** `removeFile(priority)`: an empty slot answers false and changes
      nothing; otherwise the slot is emptied and the file it held forgotten. */
  function RemoveAt<F>(s: Slots<F>, priority: nat): (Slots<F>, bool) {
    match LV.At(s.files, priority)
    case None => (s, false)
    case Some(f) => (Slots(LV.Delete(s.files, priority), s.priorities - {f}), true)
  }

  /** `removeFile(file)`: a file with no recorded priority answers false and
      changes nothing; otherwise the slot of its recorded priority is
      emptied, whatever it holds now, and the file forgotten. */
  function RemoveFile<F>(s: Slots<F>, f: F): (Slots<F>, bool) {
    if f !in s.priorities then (s, false)
    else (Slots(LV.Delete(s.files, s.priorities[f]), s.priorities - {f}), true)
  }

  /** `path`: the script's name behind the name of every directory above it
      that has a parent, separated by `\`. */
  method Path(t: Tree, dir: DirId, name: string) returns (path: string)
    requires ParentsOlder(t) && dir in t.dirs
    ensures path == Join(Scripts.DirPrefix(t, dir) + [name], '\\')
  {
    path := name;
    var d := dir;
    ghost var rest := [name];
    while t.dirs[d].parent.Some?
      invariant d in t.dirs && |rest| >= 1
      invariant path == Join(rest, '\\')
      invariant Scripts.DirPrefix(t, d) + rest == Scripts.DirPrefix(t, dir) + [name]
      decreases d
    {
      var node := t.dirs[d];
      assert ([node.name] + rest)[1..] == rest;
      path := node.name + "\\" + path;
      assert Scripts.DirPrefix(t, node.parent.value) + ([node.name] + rest) == Scripts.DirPrefix(t, d) + rest;
      rest := [node.name] + rest;
      d := node.parent.value;
    }
    assert Scripts.DirPrefix(t, d) + rest == rest;
  }

  // ---------------------------------------------------------------------------
  // Properties

  /** A path built from names without `\` splits back into those names: the
      directory names, then the script's name. */
  lemma {:induction false} PathSplits(t: Tree, dir: DirId, name: string)
    requires ParentsOlder(t) && dir in t.dirs
    requires forall k :: 0 <= k < |Scripts.DirPrefix(t, dir)| ==> '\\' !in Scripts.DirPrefix(t, dir)[k]
    requires '\\' !in name
    ensures Split(Join(Scripts.DirPrefix(t, dir) + [name], '\\'), '\\') == Scripts.DirPrefix(t, dir) + [name]
  {
    var parts := Scripts.DirPrefix(t, dir) + [name];
    forall k | 0 <= k < |parts|
      ensures '\\' !in parts[k]
    {
      if k < |parts| - 1 {
        assert parts[k] == Scripts.DirPrefix(t, dir)[k];
      }
    }
    SplitJoin(parts, '\\');
  }

  /** `getFile()` is the file of the highest filled slot: that slot holds
      it and every slot above is empty; it is undefined only when every slot
      is empty. */
  lemma {:induction false} GetFileIsHighest<F>(s: Slots<F>)
    ensures GetFile(s, None).None? <==> forall p: nat :: GetFile(s, Some(p)).None?
    ensures GetFile(s, None).Some? ==>
      exists p: nat :: GetFile(s, Some(p)) == GetFile(s, None) && forall q: nat :: q > p ==> GetFile(s, Some(q)).None?
  {
    LV.TopIsHighest(s.files);
    assert forall p: nat :: GetFile(s, Some(p)) == LV.At(s.files, p);
  }

  /** `addFile` fills that one slot, records the file's priority, and
      leaves every other slot and every other file's priority alone. */
  lemma {:induction false} AddFileSlots<F>(s: Slots<F>, f: F, priority: nat, p: nat, g: F)
    ensures var r := AddFile(s, f, priority);
            && GetFile(r, Some(p)) == (if p == priority then Some(f) else GetFile(s, Some(p)))
            && f in r.priorities && r.priorities[f] == priority
            && (g != f ==> (g in r.priorities <==> g in s.priorities))
            && (g != f && g in s.priorities ==> r.priorities[g] == s.priorities[g])
  {
    LV.SetAt(s.files, priority, f);
  }

  /** `removeFile(priority)` answers false exactly for an empty slot, and
      then changes nothing; otherwise that slot is emptied, the file it held
      forgotten, and every other slot and file kept. */
  lemma {:induction false} RemoveAtResult<F>(s: Slots<F>, priority: nat, p: nat, g: F)
    ensures var (r, removed) := RemoveAt(s, priority);
            && (removed <==> GetFile(s, Some(priority)).Some?)
            && (!removed ==> r == s)
            && (removed ==> GetFile(r, Some(p)) == (if p == priority then None else GetFile(s, Some(p))))
            && (removed ==>
                  var f := GetFile(s, Some(priority)).value;
                  f !in r.priorities && (g != f ==> (g in r.priorities <==> g in s.priorities)))
  {
    LV.DeleteAt(s.files, priority);
  }

  /** `removeFile(file)` answers false exactly for a file with no recorded
      priority, and then changes nothing; otherwise the slot of its recorded
      priority is emptied, the file forgotten, and every other slot and file
      kept. */
  lemma {:induction false} RemoveFileResult<F>(s: Slots<F>, f: F, p: nat, g: F)
    ensures var (r, removed) := RemoveFile(s, f);
            && (removed <==> f in s.priorities)
            && (!removed ==> r == s)
            && (removed ==>
                  && f !in r.priorities
                  && GetFile(r, Some(p)) == (if p == s.priorities[f] then None else GetFile(s, Some(p)))
                  && (g != f ==> (g in r.priorities <==> g in s.priorities)))
  {
    LV.DeleteAt(s.files, if f in s.priorities then s.priorities[f] else 0);
  }

  /** The slots and the priority map describe each other: every recorded
      file sits in the slot of its priority, and every filled slot holds a
      file recorded at that slot. */
  ghost predicate Consistent<F>(s: Slots<F>) {
    && (forall f :: f in s.priorities ==> LV.At(s.files, s.priorities[f]) == Some(f))
    && (forall p :: 0 <= p < |s.files.all| && s.files.all[p].Some? ==>
          s.files.all[p].value in s.priorities && s.priorities[s.files.all[p].value] == p)
  }

  /** The number of filled slots. */
  function Filled<F>(all: seq<Option<F>>): nat
    decreases |all|
  {
    if |all| == 0 then 0
    else Filled(all[..|all| - 1]) + if all[|all| - 1].Some? then 1 else 0
  }

  /** While the slots and the map describe each other, `fileCount` is the
      number of filled slots. */
  lemma {:induction false} FileCountIsFilled<F>(s: Slots<F>)
    requires Consistent(s)
    ensures FileCount(s) == Filled(s.files.all)
    decreases |s.files.all|
  {
    var all := s.files.all;
    if |all| == 0 {
      assert forall f :: f in s.priorities ==> LV.At(s.files, s.priorities[f]).None?;
      assert s.priorities.Keys == {};
    } else {
      var n := |all| - 1;
      var below := all[..n];
      match all[n]
      case None =>
        var s' := Slots(LV.LayeredValue(below), s.priorities);
        forall f | f in s.priorities
          ensures LV.At(s'.files, s.priorities[f]) == Some(f)
        {
          assert LV.At(s.files, s.priorities[f]) == Some(f);
        }
        forall p | 0 <= p < |below| && below[p].Some?
          ensures below[p].value in s.priorities && s.priorities[below[p].value] == p
        {
          assert all[p] == below[p];
        }
        FileCountIsFilled(s');
      case Some(f) =>
        assert f in s.priorities && s.priorities[f] == n;
        var s' := Slots(LV.LayeredValue(below), s.priorities - {f});
        forall g | g in s'.priorities
          ensures LV.At(s'.files, s'.priorities[g]) == Some(g)
        {
          assert LV.At(s.files, s.priorities[g]) == Some(g);
        }
        forall p | 0 <= p < |below| && below[p].Some?
          ensures below[p].value in s'.priorities && s'.priorities[below[p].value] == p
        {
          assert all[p] == below[p];
        }
        FileCountIsFilled(s');
        assert |s.priorities - {f}| == |s.priorities| - 1;
    }
  }

  /** Adding a file to an empty slot, or to the slot it already holds, when
      it is recorded nowhere else keeps the slots and the map describing
      each other. */
  lemma {:induction false} AddFileKeepsConsistent<F>(s: Slots<F>, f: F, priority: nat)
    requires Consistent(s)
    requires LV.At(s.files, priority).None? || LV.At(s.files, priority) == Some(f)
    requires f in s.priorities ==> s.priorities[f] == priority
    ensures Consistent(AddFile(s, f, priority))
  {
    var r := AddFile(s, f, priority);
    LV.SetAt(s.files, priority, f);
    forall p | 0 <= p < |r.files.all| && r.files.all[p].Some?
      ensures r.files.all[p].value in r.priorities && r.priorities[r.files.all[p].value] == p
    {
      assert LV.At(r.files, p) == r.files.all[p];
      if p != priority {
        assert LV.At(s.files, p) == r.files.all[p];
        assert s.files.all[p].value != f;
      }
    }
  }

  /** Both ways of removing a file keep the slots and the map describing
      each other. */
  lemma {:induction false} RemoveKeepsConsistent<F>(s: Slots<F>, priority: nat, f: F)
    requires Consistent(s)
    ensures Consistent(RemoveAt(s, priority).0)
    ensures Consistent(RemoveFile(s, f).0)
  {
    LV.DeleteAt(s.files, priority);
    if f in s.priorities {
      var r := RemoveFile(s, f).0;
      LV.DeleteAt(s.files, s.priorities[f]);
      forall p | 0 <= p < |r.files.all| && r.files.all[p].Some?
        ensures r.files.all[p].value in r.priorities && r.priorities[r.files.all[p].value] == p
      {
        assert LV.At(r.files, p) == LV.At(s.files, p);
      }
    }
    if LV.At(s.files, priority).Some? {
      var r := RemoveAt(s, priority).0;
      forall p | 0 <= p < |r.files.all| && r.files.all[p].Some?
        ensures r.files.all[p].value in r.priorities && r.priorities[r.files.all[p].value] == p
      {
        assert LV.At(r.files, p) == LV.At(s.files, p);
      }
    }
  }

  /** While the two describe each other, removing a file by itself and by
      its recorded priority are the same. */
  lemma {:induction false} RemoveFileIsRemoveAt<F>(s: Slots<F>, f: F)
    requires Consistent(s) && f in s.priorities
    ensures RemoveFile(s, f) == RemoveAt(s, s.priorities[f])
  {
    assert LV.At(s.files, s.priorities[f]) == Some(f);
  }

  /** Adding a second file at a filled slot counts both files while one slot
      is filled: `addFile(a, 0)`, `addFile(b, 0)` gives a `fileCount` of 2
      with only b in the slots, and removing a afterwards empties the slot
      of b while b stays counted. */
  method FileCountOverCounts() returns (s: Slots<string>, r: Slots<string>)
    ensures FileCount(s) == 2 && Filled(s.files.all) == 1
    ensures GetFile(s, None) == Some("b") && !Consistent(s)
    ensures r == RemoveFile(s, "a").0
    ensures GetFile(r, None).None? && FileCount(r) == 1
  {
    s := AddFile(AddFile(NewSlots(), "a", 0), "b", 0);
    assert s.files.all == [Some("b")];
    assert s.priorities == map["a" := 0, "b" := 0];
    var none: seq<Option<string>> := [];
    assert s.files.all[..0] == none;
    assert Filled(s.files.all) == Filled(none) + 1;
    assert LV.LastDefined(s.files.all) == Some(0);
    assert LV.At(s.files, s.priorities["a"]) != Some("a");
    r := RemoveFile(s, "a").0;
    assert r.files.all == [None];
    assert r.priorities == map["b" := 0];
    assert r.files.all[..0] == none;
    assert LV.LastDefined(r.files.all) == LV.LastDefined(none);
  }
}
