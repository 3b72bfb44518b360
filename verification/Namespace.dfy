/** The directory tree and the metadata scrub: three masking renames and an unlink. */
module Namespace {
  import opened Store

  /** Names from the root of the volume down; [] is the root itself. */
  type Path = seq<string>

  datatype Node = Directory | Regular(file: File) | Special

  type Tree = map<Path, Node>

  function Parent(p: Path): Path
    requires |p| > 0
  {
    p[..|p| - 1]
  }

  function Name(p: Path): string
    requires |p| > 0
  {
    p[|p| - 1]
  }

  /** `p` lies strictly below `d`. */
  predicate Below(d: Path, p: Path) {
    d < p
  }

  predicate IsChild(d: Path, p: Path) {
    |p| > 0 && Parent(p) == d
  }

  /** Every entry sits in a directory, so a tree is closed towards its root. */
  ghost predicate Rooted(t: Tree) {
    forall p {:trigger Parent(p)} :: p in t && |p| > 0 ==> Parent(p) in t && t[Parent(p)].Directory?
  }

  /** No two names lead to one file: there are no hard links. */
  ghost predicate NoHardLinks(t: Tree) {
    forall p, q {:trigger t[p], t[q]} ::
      p in t && q in t && p != q && t[p].Regular? && t[q].Regular? ==> t[p].file != t[q].file
  }

  predicate IsDirectory(t: Tree, p: Path) {
    p in t && t[p].Directory?
  }

  predicate IsRegular(t: Tree, p: Path) {
    p in t && t[p].Regular?
  }

  /** A directory that still has a child. */
  predicate Occupied(t: Tree, d: Path) {
    IsDirectory(t, d) && exists c :: c in t && IsChild(d, c)
  }

  /** A directory without children has nothing at any depth below it. */
  lemma {:induction false} NoChildNothingBelow(t: Tree, d: Path, p: Path)
    requires Rooted(t) && p in t && Below(d, p)
    ensures exists c :: c in t && IsChild(d, c) && c <= p
    decreases |p|
  {
    if Parent(p) == d {
      assert IsChild(d, p);
    } else {
      assert Below(d, Parent(p));
      NoChildNothingBelow(t, d, Parent(p));
      var c :| c in t && IsChild(d, c) && c <= Parent(p);
      assert c <= p;
    }
  }

  class Volume {
    var entries: Tree
    const stuck: set<Path>          // paths whose removal the kernel will refuse: any fault pattern
    ghost const files: set<File>    // every file object of the volume
    ghost var faults: nat           // renames that failed so far

    ghost predicate Valid()
      reads this, files
    {
      && Rooted(entries)
      && NoHardLinks(entries)
      && (forall p :: IsRegular(entries, p) ==> entries[p].file in files)
      && (forall f :: f in files ==> f.Valid())
    }

    /** fs::rename of a regular file. It replaces an existing target unless that is a directory;
        renaming a name to itself does nothing. */
    method Rename(source: Path, target: Path) returns (ok: bool)
      requires Valid() && IsRegular(entries, source)
      requires |source| > 0 && |target| > 0 && Parent(target) == Parent(source)
      modifies this`entries, this`faults
      ensures Valid()
      ensures faults == old(faults) + if ok then 0 else 1
      ensures !ok ==> entries == old(entries)
      ensures ok ==> !IsDirectory(old(entries), target)
      ensures ok ==> entries == (old(entries) - {source, target})[target := old(entries)[source]]
    {
      ok := *;
      if IsDirectory(entries, target) { ok := false; }
      if !ok { faults := faults + 1; }
      if ok && source != target {
        var node := entries[source];
        entries := (entries - {source, target})[target := node];
        forall p {:trigger Parent(p)} | p in entries && |p| > 0
          ensures Parent(p) in entries && entries[Parent(p)].Directory?
        {
        }
      }
    }

    /** fs::remove: a missing name is no error; a directory goes only when it is empty. */
    method Remove(path: Path) returns (ok: bool)
      requires Valid() && path != []
      modifies this`entries
      ensures Valid()
      ensures ok <==> path !in old(entries) || (path !in stuck && !Occupied(old(entries), path))
      ensures entries == if ok then old(entries) - {path} else old(entries)
    {
      if path !in entries { return true; }
      if Occupied(entries, path) { return false; }
      if path in stuck { return false; }
      forall p {:trigger Parent(p)} | p in entries - {path} && |p| > 0
        ensures Parent(p) in entries - {path} && (entries - {path})[Parent(p)].Directory?
      {
        assert IsChild(path, p) <==> Parent(p) == path;
      }
      entries := entries - {path};
      return true;
    }
  }

  // ----- metadata scrub -----

  /** Six decimal digits. */
  type Nonce = s: string | |s| == 6 witness "100000"

  function Mask(c: char, n: nat, nonce: Nonce): string {
    seq(n, _ => c) + "_" + nonce
  }

  /** The three names a scrub moves through. */
  function Masks(path: Path, nonce: Nonce): (m: seq<Path>)
    requires |path| > 0
    ensures |m| == 3 && forall i :: 0 <= i < 3 ==> |m[i]| == |path| && Parent(m[i]) == Parent(path)
  {
    var n := |Name(path)|;
    [Parent(path) + [Mask('0', n, nonce)], Parent(path) + [Mask('A', n, nonce)], Parent(path) + ["0_" + nonce]]
  }

  /** The masks meant to have the length of the original name exceed it by seven characters. */
  lemma MasksAreLonger(path: Path, nonce: Nonce)
    requires |path| > 0
    ensures |Name(Masks(path, nonce)[0])| == |Name(Masks(path, nonce)[1])| == |Name(path)| + 7
  {
  }

  /** The masks character by character: zeros for every character of the name, then as many As, then
      a name of eight characters; behind each of them only the nonce. */
  lemma MaskCharacters(path: Path, nonce: Nonce)
    requires |path| > 0
    ensures var m, n := Masks(path, nonce), |Name(path)|;
      var zeros, complement, short := Name(m[0]), Name(m[1]), Name(m[2]);
      && |zeros| == |complement| == n + 7 && |short| == 8
      && (forall i :: 0 <= i < n ==> zeros[i] == '0' && complement[i] == 'A')
      && zeros[n] == complement[n] == '_' && zeros[n + 1..] == complement[n + 1..] == nonce
      && short[0] == '0' && short[1] == '_' && short[2..] == nonce
  {
  }

  /** Nothing of a name but its length goes into the masks. */
  lemma MasksForgetTheName(path: Path, other: Path, nonce: Nonce)
    requires |path| > 0 && |other| > 0 && Parent(path) == Parent(other) && |Name(path)| == |Name(other)|
    ensures Masks(path, nonce) == Masks(other, nonce)
  {
  }

  /** Names that the successful renames passed through. */
  function Visited(path: Path, nonce: Nonce, moved: seq<bool>): set<Path>
    requires |path| > 0 && |moved| <= 3
  {
    {path} + set i | 0 <= i < |moved| && moved[i] :: Masks(path, nonce)[i]
  }

  /** Where the file is after some renames: the mask of the last success, else the original name. */
  function Current(path: Path, nonce: Nonce, moved: seq<bool>): (p: Path)
    requires |path| > 0 && |moved| <= 3
    ensures |p| == |path| && Parent(p) == Parent(path) && p in Visited(path, nonce, moved)
    decreases |moved|
  {
    if moved == [] then path
    else if moved[|moved| - 1] then Masks(path, nonce)[|moved| - 1]
    else
      assert Visited(path, nonce, moved[..|moved| - 1]) <= Visited(path, nonce, moved);
      Current(path, nonce, moved[..|moved| - 1])
  }

  /** The tree in the middle of a scrub: every visited name is gone except the current one, and
      that one names the original file. */
  function Renamed(t: Tree, path: Path, nonce: Nonce, moved: seq<bool>): Tree
    requires |path| > 0 && |moved| <= 3 && path in t
  {
    (t - Visited(path, nonce, moved))[Current(path, nonce, moved) := t[path]]
  }

  lemma VisitedStep(path: Path, nonce: Nonce, moved: seq<bool>, ok: bool)
    requires |path| > 0 && |moved| < 3
    ensures Visited(path, nonce, moved + [ok])
         == Visited(path, nonce, moved) + if ok then {Masks(path, nonce)[|moved|]} else {}
  {
    var next, target := moved + [ok], Masks(path, nonce)[|moved|];
    forall p | p in Visited(path, nonce, moved) + if ok then {target} else {}
      ensures p in Visited(path, nonce, next)
    {
      if p != path && p in Visited(path, nonce, moved) {
        var i :| 0 <= i < |moved| && moved[i] && p == Masks(path, nonce)[i];
        assert next[i];
      } else if p != path {
        assert next[|moved|];
      }
    }
  }

  lemma RenameStep(t: Tree, path: Path, nonce: Nonce, moved: seq<bool>, ok: bool)
    requires |path| > 0 && |moved| < 3 && path in t
    ensures var now := Renamed(t, path, nonce, moved);
      var source, target := Current(path, nonce, moved), Masks(path, nonce)[|moved|];
      source in now && now[source] == t[path]
      && Renamed(t, path, nonce, moved + [ok]) == if ok then (now - {source, target})[target := t[path]] else now
  {
    VisitedStep(path, nonce, moved, ok);
    assert (moved + [ok])[..|moved|] == moved;
  }

  /** Renames never run over a directory. */
  lemma NoDirectoryVisited(t: Tree, path: Path, nonce: Nonce, moved: seq<bool>, ok: bool)
    requires |path| > 0 && |moved| < 3 && IsRegular(t, path)
    requires forall p :: p in Visited(path, nonce, moved) ==> !IsDirectory(t, p)
    requires ok ==> !IsDirectory(Renamed(t, path, nonce, moved), Masks(path, nonce)[|moved|])
    ensures forall p :: p in Visited(path, nonce, moved + [ok]) ==> !IsDirectory(t, p)
  {
    VisitedStep(path, nonce, moved, ok);
  }

  lemma Unlinked(t: Tree, path: Path, nonce: Nonce, moved: seq<bool>)
    requires |path| > 0 && |moved| <= 3 && path in t
    ensures Renamed(t, path, nonce, moved) - {Current(path, nonce, moved)} == t - Visited(path, nonce, moved)
    ensures !IsDirectory(Renamed(t, path, nonce, moved), Current(path, nonce, moved)) <==> !t[path].Directory?
  {
  }

  /** The state between the renames of one scrub. */
  ghost predicate Midway(volume: Volume, before: Tree, path: Path, nonce: Nonce, moved: seq<bool>, currentPath: Path)
    reads volume, volume.files
  {
    && volume.Valid() && |path| > 0 && IsRegular(before, path) && |moved| <= 3
    && currentPath == Current(path, nonce, moved)
    && volume.entries == Renamed(before, path, nonce, moved)
    && forall p :: p in Visited(path, nonce, moved) ==> !IsDirectory(before, p)
  }

  /** The try_rename closure: on success the current path moves on, on failure it stays. */
  method TryRename(volume: Volume, path: Path, nonce: Nonce, currentPath: Path, target: Path,
                   ghost before: Tree, ghost moved: seq<bool>) returns (renamed: bool, next: Path)
    requires Midway(volume, before, path, nonce, moved, currentPath)
    requires |moved| < 3 && target == Masks(path, nonce)[|moved|]
    modifies volume`entries, volume`faults
    ensures Midway(volume, before, path, nonce, moved + [renamed], next)
    ensures volume.faults == old(volume.faults) + if renamed then 0 else 1
  {
    RenameStep(before, path, nonce, moved, true);
    renamed := volume.Rename(currentPath, target);
    next := if renamed then target else currentPath;
    RenameStep(before, path, nonce, moved, renamed);
    NoDirectoryVisited(before, path, nonce, moved, renamed);
    assert (moved + [renamed])[..|moved|] == moved;
  }

  /** The tree after the renames and the unlink: the visited names are gone, but for the last one
      if its removal is refused. */
  function AfterScrub(t: Tree, stuck: set<Path>, path: Path, nonce: Nonce, moved: seq<bool>): Tree
    requires |path| > 0 && |moved| == 3 && path in t
  {
    if Current(path, nonce, moved) in stuck then Renamed(t, path, nonce, moved) else t - Visited(path, nonce, moved)
  }

  /** The directory tree after a scrub. */
  ghost predicate Scrubbed(before: Tree, after: Tree, stuck: set<Path>, path: Path, nonce: Nonce, moved: seq<bool>,
                           ok: bool)
    requires |path| > 0
  {
    && |moved| == 3 && path in before
    && (ok <==> moved[0] && moved[1] && moved[2] && Current(path, nonce, moved) !in stuck)
    && after == AfterScrub(before, stuck, path, nonce, moved)
    && forall p :: p in Visited(path, nonce, moved) ==> !IsDirectory(before, p)
  }

  /** The tree after a scrub, name by name: the original name and every name moved through are gone,
      but for the last of them if its removal is refused. */
  lemma ScrubbedNames(before: Tree, after: Tree, stuck: set<Path>, path: Path, nonce: Nonce, moved: seq<bool>, ok: bool)
    requires |path| > 0 && Scrubbed(before, after, stuck, path, nonce, moved, ok)
    ensures var m := Masks(path, nonce);
      var last := if moved[2] then m[2] else if moved[1] then m[1] else if moved[0] then m[0] else path;
      && (ok <==> moved[0] && moved[1] && moved[2] && last !in stuck)
      && (forall p :: p in after <==>
            if p == last then last in stuck
            else p in before && p != path && forall k :: 0 <= k < 3 && moved[k] ==> p != m[k])
      && (forall p :: p in after ==> p == last || (p in before && after[p] == before[p]))
      && (last in after ==> after[last] == before[path])
  {
    LastName(path, nonce, moved);
    forall p
      ensures p in Visited(path, nonce, moved) <==>
              p == path || exists k :: 0 <= k < 3 && moved[k] && p == Masks(path, nonce)[k]
    {
    }
  }

  lemma LastName(path: Path, nonce: Nonce, moved: seq<bool>)
    requires |path| > 0 && |moved| == 3
    ensures var m := Masks(path, nonce);
      Current(path, nonce, moved)
      == if moved[2] then m[2] else if moved[1] then m[1] else if moved[0] then m[0] else path
  {
    var two, one: seq<bool> := moved[..2], moved[..1];
    assert two[..1] == one && one[..0] == [];
    assert Current(path, nonce, one) == if moved[0] then Masks(path, nonce)[0] else path;
    assert Current(path, nonce, two) == if moved[1] then Masks(path, nonce)[1] else Current(path, nonce, one);
  }

  /** How many of the three renames failed. */
  function Misses(moved: seq<bool>): (n: nat)
    requires |moved| == 3
    ensures n == 0 <==> moved == [true, true, true]
  {
    (if moved[0] then 0 else 1) + (if moved[1] then 0 else 1) + (if moved[2] then 0 else 1)
  }

  /** The three renames; `renamed` says that all of them succeeded. */
  method MaskName(volume: Volume, path: Path, nonce: Nonce)
    returns (currentPath: Path, renamed: bool, ghost moved: seq<bool>)
    requires volume.Valid() && |path| > 0 && IsRegular(volume.entries, path)
    modifies volume`entries, volume`faults
    ensures Midway(volume, old(volume.entries), path, nonce, moved, currentPath) && |moved| == 3
    ensures renamed <==> moved[0] && moved[1] && moved[2]
    ensures volume.faults == old(volume.faults) + Misses(moved)
  {
    ghost var before := volume.entries;
    var masks := Masks(path, nonce);
    currentPath := path;
    var first, second, third: bool;
    // 1. zero mask
    first, currentPath := TryRename(volume, path, nonce, currentPath, masks[0], before, []);
    // 2. complement mask
    second, currentPath := TryRename(volume, path, nonce, currentPath, masks[1], before, [] + [first]);
    // 3. short name
    third, currentPath := TryRename(volume, path, nonce, currentPath, masks[2], before, [] + [first] + [second]);
    moved := [] + [first] + [second] + [third];
    renamed := first && second && third;
  }

  /** scrub_metadata. `moved` tells which of the three renames succeeded. */
  method ScrubMetadata(volume: Volume, path: Path, nonce: Nonce)
    returns (ok: bool, ghost moved: seq<bool>, ghost names: seq<Path>)
    requires volume.Valid() && |path| > 0 && IsRegular(volume.entries, path)
    modifies volume`entries, volume`faults
    ensures volume.Valid()
    ensures Scrubbed(old(volume.entries), volume.entries, volume.stuck, path, nonce, moved, ok)
    ensures volume.faults == old(volume.faults) + Misses(moved)
    // the names moved through, in the same directory and free of the original name
    ensures |names| == |moved| == 3 && names == Masks(path, nonce)
    ensures forall k :: 0 <= k < 3 ==> |names[k]| == |path| && Parent(names[k]) == Parent(path)
    ensures |Name(names[0])| == |Name(names[1])| == |Name(path)| + 7 && |Name(names[2])| == 8
    ensures forall i :: 0 <= i < |Name(path)| ==> Name(names[0])[i] == '0' && Name(names[1])[i] == 'A'
    ensures Name(names[0])[|Name(path)|..] == Name(names[1])[|Name(path)|..] == "_" + nonce
    ensures Name(names[2]) == "0_" + nonce
    // the tree: the original name and every name moved through are gone, but for a last one that is stuck
    ensures var last := if moved[2] then names[2] else if moved[1] then names[1]
                        else if moved[0] then names[0] else path;
      && (ok <==> moved[0] && moved[1] && moved[2] && last !in volume.stuck)
      && (forall p :: p in volume.entries <==>
            if p == last then last in volume.stuck
            else p in old(volume.entries) && p != path && forall k :: 0 <= k < 3 && moved[k] ==> p != names[k])
      && (forall p :: p in volume.entries ==>
            p == last || (p in old(volume.entries) && volume.entries[p] == old(volume.entries)[p]))
      && (last in volume.entries ==> volume.entries[last] == old(volume.entries)[path])
  {
    ghost var before := volume.entries;
    var currentPath, renamed;
    currentPath, renamed, moved := MaskName(volume, path, nonce);
    names := Masks(path, nonce);
    // unlink, always attempted
    Unlinked(before, path, nonce, moved);
    ok := volume.Remove(currentPath);
    ok := ok && renamed;
    ScrubbedNames(before, volume.entries, volume.stuck, path, nonce, moved, ok);
    MaskCharacters(path, nonce);
  }

  /** After the renames the original file is found under the current name and under no other. */
  lemma OneNameForTheFile(t: Tree, path: Path, nonce: Nonce, moved: seq<bool>, p: Path)
    requires |path| > 0 && |moved| <= 3 && IsRegular(t, path) && NoHardLinks(t)
    ensures var now := Renamed(t, path, nonce, moved);
      IsRegular(now, p) && now[p].file == t[path].file <==> p == Current(path, nonce, moved)
  {
  }

  /** If no other entry has one of the masks, an unlinked scrub removes exactly the original
      entry; otherwise the entries that the renames ran over are lost with it. */
  lemma ScrubRemovesExactly(t: Tree, path: Path, nonce: Nonce, moved: seq<bool>)
    requires |path| > 0 && |moved| == 3 && path in t
    ensures t - Visited(path, nonce, moved) == t - {path}
       <==> forall i :: 0 <= i < 3 && moved[i] && Masks(path, nonce)[i] in t ==> Masks(path, nonce)[i] == path
  {
    var lost := Visited(path, nonce, moved);
    if t - lost == t - {path} {
      forall i | 0 <= i < 3 && moved[i] && Masks(path, nonce)[i] in t
        ensures Masks(path, nonce)[i] == path
      {
        assert Masks(path, nonce)[i] in lost;
        assert Masks(path, nonce)[i] !in (t - lost);
      }
    }
  }

  /** How the tree may change while files below `dir` are scrubbed: directories stay, nothing but
      regular files is added, and nothing changes that is not strictly below `dir`. */
  ghost predicate OnlyFilesChange(before: Tree, after: Tree, dir: Path) {
    && (forall p :: IsDirectory(before, p) ==> IsDirectory(after, p))
    && (forall p :: p in after && !after[p].Regular? ==> p in before && after[p] == before[p])
    && (forall p :: !Below(dir, p) ==> (p in after <==> p in before) && (p in after ==> after[p] == before[p]))
  }

  /** A name that leads somewhere new is a mask whose removal was refused. */
  ghost predicate OldOrRefused(before: Tree, after: Tree, stuck: set<Path>, masks: seq<Path>) {
    forall p :: p in after ==> (p in before && after[p] == before[p]) || (p in stuck && p in masks)
  }

  /** A scrub changes the tree only among the siblings of its file; without refusals it adds no
      name and takes the original one away. */
  lemma ScrubFrame(before: Tree, after: Tree, stuck: set<Path>, path: Path, nonce: Nonce, moved: seq<bool>,
                   ok: bool, dir: Path)
    requires |path| > 0 && Below(dir, path) && IsRegular(before, path)
    requires Scrubbed(before, after, stuck, path, nonce, moved, ok)
    ensures OnlyFilesChange(before, after, dir)
    ensures OldOrRefused(before, after, stuck, Masks(path, nonce))
    ensures stuck == {} ==> after.Keys <= before.Keys - {path}
  {
    forall p | p in Visited(path, nonce, moved)
      ensures Below(dir, p)
    {
      assert |p| == |path| && Parent(p) == Parent(path);
    }
    assert Current(path, nonce, moved) == path || Current(path, nonce, moved) in Masks(path, nonce);
  }

  /** Directories neither appear nor vanish while files are shredded. */
  ghost predicate DirectoriesStay(before: Tree, after: Tree) {
    forall p :: IsDirectory(before, p) <==> IsDirectory(after, p)
  }

  lemma DirectoriesKept(before: Tree, after: Tree, dir: Path)
    requires OnlyFilesChange(before, after, dir)
    ensures DirectoriesStay(before, after)
  {
  }

  lemma ChangesAddUp(a: Tree, b: Tree, c: Tree, dir: Path)
    requires OnlyFilesChange(a, b, dir) && OnlyFilesChange(b, c, dir)
    ensures OnlyFilesChange(a, c, dir)
  {
  }
}
