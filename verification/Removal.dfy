/** The last stage of shred_directory: directories are removed in reverse listing order. */
module Removal {
  import opened Namespace

  /** A directory iterator may deliver entries in any order that names each at most once and
      visits a directory before what lies below it. */
  ghost predicate PreOrder(listing: seq<Path>) {
    forall i, j :: 0 <= i < j < |listing| ==> listing[i] != listing[j] && !Below(listing[j], listing[i])
  }

  /** An entry that keeps every directory above it alive: not a directory, never visited, or a
      directory whose own removal the kernel refuses. */
  predicate Stays(t: Tree, visited: set<Path>, stuck: set<Path>, p: Path) {
    p in t && (!t[p].Directory? || p !in visited || p in stuck)
  }

  /** Something at or below `d` stays. */
  ghost predicate Blocked(t: Tree, visited: set<Path>, stuck: set<Path>, d: Path) {
    exists p :: Stays(t, visited, stuck, p) && d <= p
  }

  /** What is left after the directories in `done` had their turn. */
  ghost function Remaining(t: Tree, visited: set<Path>, stuck: set<Path>, done: set<Path>): Tree {
    map p | p in t && !(p in done && !Blocked(t, visited, stuck, p)) :: t[p]
  }

  /** When everything visited below a directory has had its turn, the directory is found empty
      and removable exactly if nothing at or below it stays. */
  lemma TurnDecides(t: Tree, visited: set<Path>, stuck: set<Path>, done: set<Path>, d: Path)
    requires Rooted(Remaining(t, visited, stuck, done))
    requires IsDirectory(t, d) && d in visited && d !in done && done <= visited
    requires forall p :: p in visited && Below(d, p) ==> p in done
    ensures Blocked(t, visited, stuck, d) <==> d in stuck || Occupied(Remaining(t, visited, stuck, done), d)
  {
    var now := Remaining(t, visited, stuck, done);
    if d in stuck {
      assert Stays(t, visited, stuck, d);
    }
    if Occupied(now, d) {
      var c :| c in now && IsChild(d, c);
      assert Below(d, c);
      if c in done {
        var p :| Stays(t, visited, stuck, p) && c <= p;
        assert d <= p;
      } else {
        assert Stays(t, visited, stuck, c);
      }
    }
    if Blocked(t, visited, stuck, d) && d !in stuck {
      var p :| Stays(t, visited, stuck, p) && d <= p;
      assert p != d;
      assert p in now;
      NoChildNothingBelow(now, d, p);
    }
  }

  /** One turn of the removal loop. */
  method RemoveInTurn(volume: Volume, d: Path, ghost t: Tree, ghost visited: set<Path>, ghost done: set<Path>)
    requires volume.Valid() && volume.entries == Remaining(t, visited, volume.stuck, done)
    requires d != [] && IsDirectory(t, d) && d in visited && d !in done && done <= visited
    requires forall p :: p in visited && Below(d, p) ==> p in done
    modifies volume`entries
    ensures volume.Valid() && volume.entries == Remaining(t, visited, volume.stuck, done + {d})
  {
    TurnDecides(t, visited, volume.stuck, done, d);
    assert d in volume.entries;
    var _ := volume.Remove(d);
  }

  /** Reverse pre-order removal is exact: of the visited directories and the target, precisely
      those survive that have something at or below them that stays. */
  method RemoveDirectories(volume: Volume, target: Path, dirs: seq<Path>)
    requires volume.Valid() && target != [] && IsDirectory(volume.entries, target)
    requires PreOrder(dirs)
    requires forall d :: d in dirs ==> IsDirectory(volume.entries, d) && Below(target, d)
    modifies volume`entries
    ensures volume.Valid()
    ensures volume.entries == Remaining(old(volume.entries), Turns(target, dirs), volume.stuck, Turns(target, dirs))
    // entry by entry: a visited directory goes exactly if nothing at or below it is a file, was not
    // visited, or may not be removed
    ensures forall p :: p in volume.entries <==>
      p in old(volume.entries)
      && ((p != target && p !in dirs)
          || exists q :: q in old(volume.entries) && p <= q
                         && (!old(volume.entries)[q].Directory? || (q != target && q !in dirs) || q in volume.stuck))
    ensures forall p :: p in volume.entries ==> volume.entries[p] == old(volume.entries)[p]
  {
    ghost var t, visited := volume.entries, Turns(target, dirs);
    assert volume.entries == Remaining(t, visited, volume.stuck, Elements(dirs[|dirs|..]));
    for i := |dirs| downto 0
      invariant volume.Valid()
      invariant volume.entries == Remaining(t, visited, volume.stuck, Elements(dirs[i..]))
    {
      ghost var done := Elements(dirs[i + 1..]);
      forall p | p in visited && Below(dirs[i], p)
        ensures p in done
      {
        assert dirs[i] in dirs && Below(target, dirs[i]);
        assert p in dirs;
        var k :| 0 <= k < |dirs| && dirs[k] == p;
        assert k > i;
      }
      RemoveInTurn(volume, dirs[i], t, visited, done);
      assert Elements(dirs[i..]) == done + {dirs[i]};
    }
    assert dirs[0..] == dirs;
    RemoveInTurn(volume, target, t, visited, Elements(dirs));
    assert visited == Elements(dirs) + {target};
    RemainingByEntry(t, target, dirs, volume.stuck);
  }

  lemma RemainingByEntry(t: Tree, target: Path, dirs: seq<Path>, stuck: set<Path>)
    ensures forall p :: p in Remaining(t, Turns(target, dirs), stuck, Turns(target, dirs)) <==>
      p in t && ((p != target && p !in dirs)
                 || exists q :: q in t && p <= q && (!t[q].Directory? || (q != target && q !in dirs) || q in stuck))
  {
    var visited := Turns(target, dirs);
    forall p
      ensures p in visited <==> p == target || p in dirs
    {
    }
    forall p | p in t
      ensures Blocked(t, visited, stuck, p) <==>
              exists q :: q in t && p <= q && (!t[q].Directory? || (q != target && q !in dirs) || q in stuck)
    {
      if Blocked(t, visited, stuck, p) {
        var q :| Stays(t, visited, stuck, q) && p <= q;
      }
      if q :| q in t && p <= q && (!t[q].Directory? || (q != target && q !in dirs) || q in stuck) {
        assert Stays(t, visited, stuck, q);
      }
    }
  }

  /** The same in terms of the final tree alone: a directory that had its turn survives exactly if
      a surviving entry at or below it is one that stays. */
  lemma SurvivesIff(t: Tree, visited: set<Path>, stuck: set<Path>, d: Path)
    requires d in t && d in visited
    ensures var left := Remaining(t, visited, stuck, visited);
      d in left <==> exists p :: p in left && d <= p && Stays(left, visited, stuck, p)
  {
    var left := Remaining(t, visited, stuck, visited);
    if d in left {
      var p :| Stays(t, visited, stuck, p) && d <= p;
      assert Blocked(t, visited, stuck, p);
      assert p in left && Stays(left, visited, stuck, p);
    }
    if p :| p in left && d <= p && Stays(left, visited, stuck, p) {
      assert Stays(t, visited, stuck, p);
    }
  }

  /** Every directory that gets a turn. */
  function Turns(target: Path, dirs: seq<Path>): set<Path> {
    {target} + Elements(dirs)
  }

  function Elements(s: seq<Path>): set<Path> {
    set p | p in s
  }

  /** With only visited directories left below the target and no refusals, the whole tree goes
      and nothing else does. */
  lemma WholeTreeGoes(t: Tree, target: Path, dirs: seq<Path>, stuck: set<Path>)
    requires forall p :: p in t && target <= p ==> t[p].Directory? && p in Turns(target, dirs) && p !in stuck
    requires forall d :: d in dirs ==> Below(target, d)
    ensures Remaining(t, Turns(target, dirs), stuck, Turns(target, dirs)) == map p | p in t && !(target <= p) :: t[p]
  {
    var visited := Turns(target, dirs);
    forall p | p in t && target <= p
      ensures !Blocked(t, visited, stuck, p)
    {
    }
  }

  // ----- the listing of shred_directory -----

  /** The regular files, or the directories, of a listing, in listing order. */
  function Select(t: Tree, listing: seq<Path>, directories: bool): seq<Path> {
    if listing == [] then []
    else
      var n := |listing| - 1;
      var p := listing[n];
      Select(t, listing[..n], directories)
      + if (if directories then IsDirectory(t, p) else IsRegular(t, p)) then [p] else []
  }

  lemma {:induction false} SelectExactly(t: Tree, listing: seq<Path>, directories: bool, p: Path)
    ensures p in Select(t, listing, directories)
       <==> p in listing && if directories then IsDirectory(t, p) else IsRegular(t, p)
  {
    if listing != [] {
      var n := |listing| - 1;
      SelectExactly(t, listing[..n], directories, p);
      assert listing == listing[..n] + [listing[n]];
    }
  }

  /** Selecting keeps the order in which directories precede their contents. */
  lemma {:induction false} SelectKeepsOrder(t: Tree, listing: seq<Path>, directories: bool)
    requires PreOrder(listing)
    ensures PreOrder(Select(t, listing, directories))
  {
    if listing != [] {
      var n := |listing| - 1;
      SelectKeepsOrder(t, listing[..n], directories);
      var head, all := Select(t, listing[..n], directories), Select(t, listing, directories);
      forall i, j | 0 <= i < j < |all|
        ensures all[i] != all[j] && !Below(all[j], all[i])
      {
        assert all[i] == head[i];
        SelectExactly(t, listing[..n], directories, head[i]);
        if j == |head| {
          var k :| 0 <= k < n && listing[k] == head[i];
          assert listing[k] == listing[..n][k];
        }
      }
    }
  }

  /** A listing of files only is what it selects. */
  lemma {:induction false} SelectAll(t: Tree, listing: seq<Path>)
    requires forall p :: p in listing ==> IsRegular(t, p)
    ensures Select(t, listing, false) == listing
  {
    if listing != [] {
      var n := |listing| - 1;
      SelectAll(t, listing[..n]);
      assert Select(t, listing, false) == Select(t, listing[..n], false) + [listing[n]];
      assert listing == listing[..n] + [listing[n]];
    }
  }

  /** The loop over the directory iterator. */
  method ListEntries(t: Tree, listing: seq<Path>) returns (files: seq<Path>, dirs: seq<Path>)
    requires PreOrder(listing)
    ensures files == Select(t, listing, false) && PreOrder(files)
    ensures dirs == Select(t, listing, true) && PreOrder(dirs)
    ensures forall p :: p in files <==> p in listing && IsRegular(t, p)
    ensures forall p :: p in dirs <==> p in listing && IsDirectory(t, p)
  {
    files, dirs := [], [];
    for i := 0 to |listing|
      invariant files == Select(t, listing[..i], false)
      invariant dirs == Select(t, listing[..i], true)
    {
      assert listing[..i + 1][..i] == listing[..i];
      if IsRegular(t, listing[i]) {
        files := files + [listing[i]];
      } else if IsDirectory(t, listing[i]) {
        dirs := dirs + [listing[i]];
      }
    }
    assert listing[..|listing|] == listing;
    SelectKeepsOrder(t, listing, false);
    SelectKeepsOrder(t, listing, true);
    forall p
      ensures p in files <==> p in listing && IsRegular(t, p)
      ensures p in dirs <==> p in listing && IsDirectory(t, p)
    {
      SelectExactly(t, listing, false, p);
      SelectExactly(t, listing, true, p);
    }
  }

  /** The listing names everything below `dir`, and nothing there is special. */
  ghost predicate Complete(t: Tree, dir: Path, listing: seq<Path>) {
    forall p :: p in t && Below(dir, p) ==> p in listing && !t[p].Special?
  }

  /** `dir` is gone with everything below it, and nothing else is. */
  ghost predicate Gone(before: Tree, after: Tree, dir: Path) {
    forall p :: p in after <==> p in before && !(dir <= p)
  }

  /** With a complete listing, no refusals and every listed file gone, the directory stage takes
      the whole tree. */
  lemma AllGone(before: Tree, afterFiles: Tree, dir: Path, listing: seq<Path>, files: seq<Path>, dirs: seq<Path>,
                stuck: set<Path>)
    requires stuck == {}
    requires Complete(before, dir, listing) && IsDirectory(before, dir)
    requires forall p :: p in listing ==> Below(dir, p)
    requires forall p :: p in files <==> p in listing && IsRegular(before, p)
    requires forall p :: p in dirs <==> p in listing && IsDirectory(before, p)
    requires OnlyFilesChange(before, afterFiles, dir) && afterFiles.Keys <= before.Keys
    requires forall p :: p in files ==> p !in afterFiles
    ensures Gone(before, Remaining(afterFiles, Turns(dir, dirs), stuck, Turns(dir, dirs)), dir)
  {
    forall p | p in afterFiles && dir <= p
      ensures afterFiles[p].Directory? && p in Turns(dir, dirs)
    {
      if p != dir { assert p in files || p in dirs; }
    }
    WholeTreeGoes(afterFiles, dir, dirs, stuck);
  }
}
