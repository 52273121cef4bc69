/**
 * The catalog of SearchManager: an ordered vector of FileData for one directory
 * tree, a path -> position index, the next id to hand out and the last scan mode.
 * The directory iterators are replaced by a Listing: the entries a walk of a root
 * in a mode yields, in iteration order, as the filesystem stands at the call.
 */
module Catalog {
  import opened Wrappers
  import opened PathNames

  datatype SearchMode = TopLevel | Recursive

  datatype FileType = RegularFile | Directory | SymbolicLink | Misc

  /** One indexed entry. modifiedTime is an opaque integer clock value. */
  datatype FileData = FileData(
    fileID: int,
    name: string,
    path: string,
    kind: FileType,
    tag: string,
    modifiedTime: int)

  /**
   * What the filesystem reports for one walked entry: the answers of
   * is_regular_file, is_directory and is_symlink, last_write_time, and whether
   * reading it raised a filesystem_error.
   */
  datatype WalkEntry = WalkEntry(
    path: string,
    isRegularFile: bool,
    isDirectory: bool,
    isSymlink: bool,
    lastWriteTime: int,
    unreadable: bool)

  type Listing = (string, SearchMode) -> seq<WalkEntry>

  /** The fileID getFileData leaves on an entry it could not read. */
  const FailedID: int := -1

  /** The default-constructed time_point (the epoch) of a failed read. */
  const Epoch: int := 0

  /** Kind classification: regular file wins over directory, then symlink, else MISC. */
  function Classify(e: WalkEntry): (k: FileType)
    ensures k == RegularFile <==> e.isRegularFile
    ensures k == Directory <==> !e.isRegularFile && e.isDirectory
    ensures k == SymbolicLink <==> !e.isRegularFile && !e.isDirectory && e.isSymlink
    ensures k == Misc <==> !e.isRegularFile && !e.isDirectory && !e.isSymlink
  {
    if e.isRegularFile then RegularFile
    else if e.isDirectory then Directory
    else if e.isSymlink then SymbolicLink
    else Misc
  }

  /**
   * getFileData. Name and path are set before anything can fail; a failed read
   * is marked by FailedID and keeps the epoch as its time. The id of a good read
   * is a placeholder (0) that every caller overwrites.
   */
  function GetFileData(e: WalkEntry): (f: FileData)
    ensures f.fileID == FailedID <==> e.unreadable
    ensures f.path == e.path && f.name == Stem(FileName(e.path)) && f.tag == ""
    ensures f.kind == Classify(e)
    ensures f.modifiedTime == if e.unreadable then Epoch else e.lastWriteTime
  {
    var name := Stem(FileName(e.path));
    if e.unreadable then FileData(FailedID, name, e.path, Classify(e), "", Epoch)
    else FileData(0, name, e.path, Classify(e), "", e.lastWriteTime)
  }

  /** The abstract catalog state: m_files, m_filePathIndexMap, m_NextFileID. */
  datatype Snapshot = Snapshot(files: seq<FileData>, pathIndex: map<string, nat>, nextFileID: int)

  /** Every indexed position exists and holds an entry with that path. */
  ghost predicate IndexSound(s: Snapshot)
  {
    forall p :: p in s.pathIndex ==> s.pathIndex[p] < |s.files| && s.files[s.pathIndex[p]].path == p
  }

  ghost predicate IdsDistinct(files: seq<FileData>)
  {
    forall i, j :: 0 <= i < j < |files| ==> files[i].fileID != files[j].fileID
  }

  /** Every id was handed out: it lies in [0, next). */
  ghost predicate IdsIssued(files: seq<FileData>, next: int)
  {
    && 0 <= next
    && forall i :: 0 <= i < |files| ==> 0 <= files[i].fileID < next
  }

  ghost predicate Consistent(s: Snapshot)
  {
    IndexSound(s) && IdsDistinct(s.files) && IdsIssued(s.files, s.nextFileID)
  }

  lemma FailedIDNeverIssued(s: Snapshot, i: int)
    requires Consistent(s) && 0 <= i < |s.files|
    ensures s.files[i].fileID != FailedID
  {
  }

  // ---------------------------------------------------------------- full scan

  /** Index of the first entry that cannot be read, or |walk|. */
  function FirstUnreadable(walk: seq<WalkEntry>): (k: nat)
    ensures k <= |walk|
    ensures forall i :: 0 <= i < k ==> !walk[i].unreadable
    ensures k < |walk| ==> walk[k].unreadable
    decreases |walk|
  {
    if walk == [] then 0
    else if walk[0].unreadable then 0
    else 1 + FirstUnreadable(walk[1..])
  }

  /** The entries a scan pushes for a walk it gets through: the i-th gets id i. */
  function Scanned(walk: seq<WalkEntry>): (files: seq<FileData>)
    ensures |files| == |walk|
  {
    seq(|walk|, i requires 0 <= i < |walk| => GetFileData(walk[i]).(fileID := i))
  }

  /**
   * The index a scan of walk builds: exactly the walked paths, each mapped to
   * the last position that carries it (a later assignment overwrites).
   */
  ghost predicate IndexesWalk(index: map<string, nat>, walk: seq<WalkEntry>)
  {
    && (forall p :: p in index <==> exists j :: 0 <= j < |walk| && walk[j].path == p)
    && (forall p :: p in index ==>
          index[p] < |walk| && walk[index[p]].path == p &&
          forall j :: index[p] < j < |walk| ==> walk[j].path != p)
  }

  lemma ScannedIsConsistent(walk: seq<WalkEntry>, index: map<string, nat>)
    requires IndexesWalk(index, walk)
    ensures Consistent(Snapshot(Scanned(walk), index, |walk|))
    ensures forall i :: 0 <= i < |walk| ==> Scanned(walk)[i].fileID == i && Scanned(walk)[i].path == walk[i].path
  {
  }

  lemma ScannedSnoc(walk: seq<WalkEntry>, e: WalkEntry)
    ensures Scanned(walk + [e]) == Scanned(walk) + [GetFileData(e).(fileID := |walk|)]
  {
    var lhs, rhs := Scanned(walk + [e]), Scanned(walk) + [GetFileData(e).(fileID := |walk|)];
    assert |lhs| == |rhs|;
    forall i | 0 <= i < |walk| + 1
      ensures lhs[i] == rhs[i]
    {
      if i < |walk| {
        assert (walk + [e])[i] == walk[i];
      } else {
        assert (walk + [e])[i] == e;
      }
    }
  }

  /** Adding the next walked entry at its position keeps the index exact. */
  lemma {:induction false} IndexesWalkSnoc(index: map<string, nat>, walk: seq<WalkEntry>, e: WalkEntry)
    requires IndexesWalk(index, walk)
    ensures IndexesWalk(index[e.path := |walk|], walk + [e])
  {
    var index', walk' := index[e.path := |walk|], walk + [e];
    forall p
      ensures p in index' <==> exists j :: 0 <= j < |walk'| && walk'[j].path == p
    {
      if p in index' && p != e.path {
        var j :| 0 <= j < |walk| && walk[j].path == p;
        assert walk'[j].path == p;
      }
      if p == e.path {
        assert walk'[|walk|].path == p;
      }
      if exists j :: 0 <= j < |walk'| && walk'[j].path == p {
        var j :| 0 <= j < |walk'| && walk'[j].path == p;
        if j < |walk| { assert walk[j].path == p; }
      }
    }
  }

  /** The state the scan loop builds from an empty catalog: push, index, count. */
  function ScanWalk(walk: seq<WalkEntry>): (s: Snapshot)
    ensures |s.files| == |walk| && s.nextFileID == |walk|
    decreases |walk|
  {
    if walk == [] then Snapshot([], map[], 0)
    else
      var before := ScanWalk(walk[..|walk| - 1]);
      var file := GetFileData(walk[|walk| - 1]).(fileID := before.nextFileID);
      Snapshot(before.files + [file], before.pathIndex[file.path := |before.files|], before.nextFileID + 1)
  }

  /**
   * A scan over a walk holds the walked entries in walk order with ids
   * 0 .. n-1, and indexes exactly the walked paths at their last position.
   */
  lemma {:induction false} ScanWalkIsScanned(walk: seq<WalkEntry>)
    ensures ScanWalk(walk).files == Scanned(walk)
    ensures IndexesWalk(ScanWalk(walk).pathIndex, walk)
    ensures Consistent(ScanWalk(walk))
    decreases |walk|
  {
    if walk != [] {
      var init := walk[..|walk| - 1];
      assert walk == init + [walk[|walk| - 1]];
      ScanWalkIsScanned(init);
      IndexesWalkSnoc(ScanWalk(init).pathIndex, init, walk[|walk| - 1]);
      ScannedSnoc(init, walk[|walk| - 1]);
      ScannedIsConsistent(walk, ScanWalk(walk).pathIndex);
    }
  }

  /** One more walked entry: ScanWalk pushes it with the next id and indexes its path. */
  lemma ScanWalkStep(walk: seq<WalkEntry>, i: nat)
    requires i < |walk|
    ensures var s := ScanWalk(walk[..i]);
      ScanWalk(walk[..i + 1]) == Snapshot(
        s.files + [GetFileData(walk[i]).(fileID := s.nextFileID)], s.pathIndex[walk[i].path := |s.files|], s.nextFileID + 1)
  {
    var w := walk[..i + 1];
    assert w[..|w| - 1] == walk[..i];
    assert w[|w| - 1] == walk[i];
  }

  lemma FirstUnreadableIs(walk: seq<WalkEntry>, i: nat)
    requires i <= |walk|
    requires forall j :: 0 <= j < i ==> !walk[j].unreadable
    requires i < |walk| ==> walk[i].unreadable
    ensures FirstUnreadable(walk) == i
  {
  }

  /** The first i entries of walk are readable and scanning them gives t. */
  ghost predicate ScanPrefix(walk: seq<WalkEntry>, i: nat, t: Snapshot)
  {
    && i <= |walk|
    && (forall j :: 0 <= j < i ==> !walk[j].unreadable)
    && t == ScanWalk(walk[..i])
  }

  lemma ScanPrefixStep(walk: seq<WalkEntry>, i: nat, t: Snapshot)
    requires ScanPrefix(walk, i, t) && i < |walk| && !walk[i].unreadable
    ensures ScanPrefix(walk, i + 1, Snapshot(
      t.files + [GetFileData(walk[i]).(fileID := t.nextFileID)],
      t.pathIndex[walk[i].path := |t.files|],
      t.nextFileID + 1))
  {
    ScanWalkStep(walk, i);
  }

  lemma ScanPrefixStop(walk: seq<WalkEntry>, i: nat, t: Snapshot)
    requires ScanPrefix(walk, i, t) && i < |walk| && walk[i].unreadable
    ensures FirstUnreadable(walk) == i && Consistent(t)
  {
    FirstUnreadableIs(walk, i);
    ScanWalkIsScanned(walk[..i]);
  }

  lemma ScanPrefixDone(walk: seq<WalkEntry>, t: Snapshot)
    requires ScanPrefix(walk, |walk|, t)
    ensures FirstUnreadable(walk) == |walk| && t == ScanWalk(walk[..|walk|]) && Consistent(t)
  {
    assert walk[..|walk|] == walk;
    FirstUnreadableIs(walk, |walk|);
    ScanWalkIsScanned(walk);
  }

  // ------------------------------------------------------------------ refresh

  datatype RefreshStep = RefreshStep(state: Snapshot, ok: bool)

  lemma AppendKeepsConsistent(s: Snapshot, f: FileData)
    requires Consistent(s) && f.fileID == s.nextFileID
    ensures Consistent(Snapshot(s.files + [f], s.pathIndex, s.nextFileID + 1))
  {
    var files' := s.files + [f];
    assert forall i :: 0 <= i < |s.files| ==> files'[i] == s.files[i];
  }

  lemma OverwriteKeepsConsistent(s: Snapshot, pos: nat, f: FileData)
    requires Consistent(s) && pos < |s.files|
    requires f.fileID == s.files[pos].fileID && f.path == s.files[pos].path
    ensures Consistent(s.(files := s.files[pos := f]))
  {
  }

  /**
   * One iteration of Refresh's loop. A known path is re-read and overwrites its
   * stored entry, keeping the stored id, only when the time differs; a failed
   * re-read is not checked. An unknown path is appended with the next id and is
   * not added to the index; an unreadable unknown path stops the refresh.
   */
  function RefreshEntry(s: Snapshot, e: WalkEntry): (r: RefreshStep)
    requires Consistent(s)
    ensures Consistent(r.state)
  {
    if e.path in s.pathIndex then
      var pos := s.pathIndex[e.path];
      var refreshFile := GetFileData(e);
      if refreshFile.modifiedTime != s.files[pos].modifiedTime then
        var stored := refreshFile.(fileID := s.files[pos].fileID);
        OverwriteKeepsConsistent(s, pos, stored);
        RefreshStep(s.(files := s.files[pos := stored]), true)
      else
        RefreshStep(s, true)
    else
      var file := GetFileData(e);
      if file.fileID == FailedID then RefreshStep(s, false)
      else
        var added := file.(fileID := s.nextFileID);
        AppendKeepsConsistent(s, added);
        RefreshStep(Snapshot(s.files + [added], s.pathIndex, s.nextFileID + 1), true)
  }

  /**
   * r extends s the way Refresh does: same index, every old entry keeps its
   * position, path and id, and the appended ones carry consecutive fresh ids.
   */
  ghost predicate Extends(s: Snapshot, r: Snapshot)
  {
    && r.pathIndex == s.pathIndex
    && |r.files| >= |s.files|
    && r.nextFileID == s.nextFileID + (|r.files| - |s.files|)
    && (forall i :: 0 <= i < |s.files| ==>
          r.files[i].fileID == s.files[i].fileID && r.files[i].path == s.files[i].path)
    && (forall i :: |s.files| <= i < |r.files| ==> r.files[i].fileID == s.nextFileID + (i - |s.files|))
  }

  lemma ExtendsTransitive(a: Snapshot, b: Snapshot, c: Snapshot)
    requires Extends(a, b) && Extends(b, c)
    ensures Extends(a, c)
  {
  }

  lemma RefreshEntryExtends(s: Snapshot, e: WalkEntry)
    requires Consistent(s)
    ensures Extends(s, RefreshEntry(s, e).state)
  {
    if e.path in s.pathIndex {
      var pos := s.pathIndex[e.path];
      var f := GetFileData(e);
      if f.modifiedTime != s.files[pos].modifiedTime {
        OverwriteExtends(s, pos, f.(fileID := s.files[pos].fileID));
      }
    } else if !e.unreadable {
      AppendExtends(s, GetFileData(e).(fileID := s.nextFileID));
    }
  }

  lemma OverwriteExtends(s: Snapshot, pos: nat, f: FileData)
    requires pos < |s.files| && f.fileID == s.files[pos].fileID && f.path == s.files[pos].path
    ensures Extends(s, s.(files := s.files[pos := f]))
  {
  }

  lemma AppendExtends(s: Snapshot, f: FileData)
    requires f.fileID == s.nextFileID
    ensures Extends(s, Snapshot(s.files + [f], s.pathIndex, s.nextFileID + 1))
  {
    var files' := s.files + [f];
    assert forall i :: 0 <= i < |s.files| ==> files'[i] == s.files[i];
  }

  /** Refresh's loop over a walk, stopping at the first failed step. */
  function RefreshWalk(s: Snapshot, walk: seq<WalkEntry>): (r: RefreshStep)
    requires Consistent(s)
    ensures Consistent(r.state)
    decreases |walk|
  {
    if walk == [] then RefreshStep(s, true)
    else
      var before := RefreshWalk(s, walk[..|walk| - 1]);
      if !before.ok then before else RefreshEntry(before.state, walk[|walk| - 1])
  }

  lemma {:induction false} RefreshAbortIsFinal(s: Snapshot, walk: seq<WalkEntry>, m: nat)
    requires Consistent(s) && m <= |walk|
    requires !RefreshWalk(s, walk[..m]).ok
    ensures RefreshWalk(s, walk) == RefreshWalk(s, walk[..m])
    decreases |walk|
  {
    if m < |walk| {
      assert walk[..|walk| - 1][..m] == walk[..m];
      RefreshAbortIsFinal(s, walk[..|walk| - 1], m);
    } else {
      assert walk[..m] == walk;
    }
  }

  /** Refresh's walk over one more entry takes one more step, unless it already stopped. */
  lemma RefreshWalkSnoc(s: Snapshot, walk: seq<WalkEntry>, i: nat)
    requires Consistent(s) && i < |walk|
    ensures var before := RefreshWalk(s, walk[..i]);
      RefreshWalk(s, walk[..i + 1]) == if before.ok then RefreshEntry(before.state, walk[i]) else before
  {
    assert walk[..i + 1][..i] == walk[..i];
  }

  /** The first i entries of walk refresh s to t without stopping. */
  ghost predicate RefreshPrefix(s: Snapshot, walk: seq<WalkEntry>, i: nat, t: Snapshot)
    requires Consistent(s)
  {
    i <= |walk| && RefreshWalk(s, walk[..i]) == RefreshStep(t, true)
  }

  lemma RefreshPrefixStep(s: Snapshot, walk: seq<WalkEntry>, i: nat, t: Snapshot, more: bool, u: Snapshot)
    requires Consistent(s) && i < |walk| && RefreshPrefix(s, walk, i, t)
    requires RefreshEntry(t, walk[i]) == RefreshStep(u, more)
    ensures more ==> RefreshPrefix(s, walk, i + 1, u)
    ensures !more ==> RefreshWalk(s, walk) == RefreshStep(u, false)
  {
    RefreshWalkSnoc(s, walk, i);
    if !more {
      RefreshAbortIsFinal(s, walk, i + 1);
    }
  }

  lemma RefreshPrefixDone(s: Snapshot, walk: seq<WalkEntry>, t: Snapshot)
    requires Consistent(s) && RefreshPrefix(s, walk, |walk|, t)
    ensures RefreshWalk(s, walk) == RefreshStep(t, true)
  {
    assert walk[..|walk|] == walk;
  }

  /**
   * Refresh is additive: the index is untouched, entries already present keep
   * their position, path and id, appended entries get consecutive fresh ids.
   */
  lemma {:induction false} RefreshIsAdditive(s: Snapshot, walk: seq<WalkEntry>)
    requires Consistent(s)
    ensures Extends(s, RefreshWalk(s, walk).state)
    decreases |walk|
  {
    if walk != [] {
      var before := RefreshWalk(s, walk[..|walk| - 1]);
      RefreshIsAdditive(s, walk[..|walk| - 1]);
      if before.ok {
        RefreshEntryExtends(before.state, walk[|walk| - 1]);
        ExtendsTransitive(s, before.state, RefreshWalk(s, walk).state);
      }
    }
  }

  lemma RefreshEntryOk(s: Snapshot, e: WalkEntry)
    requires Consistent(s)
    ensures RefreshEntry(s, e).ok <==> (e.path in s.pathIndex || !e.unreadable)
  {
  }

  /** Every entry of walk whose path index does not know can be read. */
  ghost predicate UnknownAreReadable(index: map<string, nat>, walk: seq<WalkEntry>)
  {
    forall i :: 0 <= i < |walk| && walk[i].path !in index ==> !walk[i].unreadable
  }

  lemma UnknownAreReadableSnoc(index: map<string, nat>, walk: seq<WalkEntry>)
    requires walk != []
    ensures UnknownAreReadable(index, walk) <==>
      UnknownAreReadable(index, walk[..|walk| - 1]) &&
      (walk[|walk| - 1].path in index || !walk[|walk| - 1].unreadable)
  {
    var init := walk[..|walk| - 1];
    assert forall i :: 0 <= i < |init| ==> init[i] == walk[i];
  }

  /** Refresh fails exactly when the walk holds an unreadable path the index does not know. */
  lemma {:induction false} RefreshOkIff(s: Snapshot, walk: seq<WalkEntry>)
    requires Consistent(s)
    ensures RefreshWalk(s, walk).ok <==> UnknownAreReadable(s.pathIndex, walk)
    decreases |walk|
  {
    if walk != [] {
      var init, last := walk[..|walk| - 1], walk[|walk| - 1];
      var before := RefreshWalk(s, init);
      RefreshOkIff(s, init);
      RefreshIsAdditive(s, init);
      RefreshEntryOk(before.state, last);
      UnknownAreReadableSnoc(s.pathIndex, walk);
    }
  }

  /** A walk of known paths whose times all match leaves the catalog exactly as it was. */
  lemma {:induction false} RefreshUnchangedWalk(s: Snapshot, walk: seq<WalkEntry>)
    requires Consistent(s)
    requires forall i :: 0 <= i < |walk| ==>
      walk[i].path in s.pathIndex &&
      GetFileData(walk[i]).modifiedTime == s.files[s.pathIndex[walk[i].path]].modifiedTime
    ensures RefreshWalk(s, walk) == RefreshStep(s, true)
    decreases |walk|
  {
    if walk != [] {
      RefreshUnchangedWalk(s, walk[..|walk| - 1]);
    }
  }

  /** A known path whose time changed is overwritten in place under its old id. */
  lemma RefreshChangedEntry(s: Snapshot, e: WalkEntry)
    requires Consistent(s) && e.path in s.pathIndex && !e.unreadable
    requires e.lastWriteTime != s.files[s.pathIndex[e.path]].modifiedTime
    ensures var pos := s.pathIndex[e.path];
      var r := RefreshWalk(s, [e]);
      && r.ok
      && |r.state.files| == |s.files|
      && r.state.files[pos] == GetFileData(e).(fileID := s.files[pos].fileID)
      && forall i :: 0 <= i < |s.files| && i != pos ==> r.state.files[i] == s.files[i]
  {
    assert [e][..0] == [];
  }

  /**
   * Because Refresh never indexes what it appends, refreshing twice over one new
   * readable path appends it twice, under two different ids.
   */
  lemma RefreshAppendsUnindexedAgain(s: Snapshot, e: WalkEntry)
    requires Consistent(s) && e.path !in s.pathIndex && !e.unreadable
    ensures var s1 := RefreshWalk(s, [e]).state;
      var s2 := RefreshWalk(s1, [e]).state;
      && |s2.files| == |s.files| + 2
      && s2.files[|s.files|].path == e.path && s2.files[|s.files| + 1].path == e.path
      && s2.files[|s.files|].fileID != s2.files[|s.files| + 1].fileID
  {
    assert [e][..0] == [];
  }

  // ------------------------------------------------------------------- class

  class SearchManager {
    var files: seq<FileData>
    var pathIndex: map<string, nat>
    var nextFileID: int
    var lastMode: SearchMode
    var currentDirectoryPath: string

    ghost function State(): Snapshot
      reads this
    {
      Snapshot(files, pathIndex, nextFileID)
    }

    ghost predicate Valid()
      reads this
    {
      Consistent(State())
    }

    constructor(mode: SearchMode)
      ensures Valid()
      ensures files == [] && pathIndex == map[] && nextFileID == 0
      ensures lastMode == mode && currentDirectoryPath == ""
    {
      files, pathIndex, nextFileID := [], map[], 0;
      lastMode, currentDirectoryPath := mode, "";
    }

    /**
     * Resets the catalog, then indexes the walk of path in mode until its first
     * unreadable entry. What was added before that entry stays.
     */
    method LoadMetaData(path: string, mode: SearchMode, listing: Listing) returns (ok: bool)
      modifies this
      ensures Valid()
      ensures currentDirectoryPath == path && lastMode == mode
      ensures var walk := listing(path, mode);
        var k := FirstUnreadable(walk);
        ok == (k == |walk|) && State() == ScanWalk(walk[..k])
    {
      currentDirectoryPath := path;
      lastMode := mode;
      nextFileID := 0;
      files := [];
      pathIndex := map[];
      var walk := listing(path, mode);
      ok := ScanInto(walk);
    }

    /**
     * The scan loop of LoadMetaData over an emptied catalog: each entry is read,
     * pushed with the next id and indexed at its position; the first entry that
     * cannot be read ends the scan.
     */
    method ScanInto(walk: seq<WalkEntry>) returns (ok: bool)
      requires State() == Snapshot([], map[], 0)
      modifies this`files, this`pathIndex, this`nextFileID
      ensures Valid()
      ensures var k := FirstUnreadable(walk); ok == (k == |walk|) && State() == ScanWalk(walk[..k])
    {
      assert walk[..0] == [];
      var i := 0;
      while i < |walk|
        invariant ScanPrefix(walk, i, State())
      {
        var file := GetFileData(walk[i]);
        if file.fileID == FailedID {
          ScanPrefixStop(walk, i, State());
          return false;
        }
        ScanPrefixStep(walk, i, State());
        Push(file);
        i := i + 1;
      }
      ScanPrefixDone(walk, State());
      return true;
    }

    /** Gives file the next id, appends it and indexes its path at its position. */
    method Push(file: FileData)
      modifies this`files, this`pathIndex, this`nextFileID
      ensures State() == Snapshot(
        old(files) + [file.(fileID := old(nextFileID))],
        old(pathIndex)[file.path := |old(files)|],
        old(nextFileID) + 1)
    {
      var stored := file.(fileID := nextFileID);
      nextFileID := nextFileID + 1;
      files := files + [stored];
      pathIndex := pathIndex[stored.path := |files| - 1];
    }

    /** Re-walks the recorded root in the recorded mode, topping the catalog up. */
    method Refresh(listing: Listing) returns (ok: bool)
      requires Valid()
      modifies this`files, this`nextFileID
      ensures Valid()
      ensures RefreshWalk(old(State()), listing(currentDirectoryPath, lastMode)) == RefreshStep(State(), ok)
    {
      var walk := listing(currentDirectoryPath, lastMode);
      ghost var s0 := State();
      var i := 0;
      while i < |walk|
        invariant 0 <= i <= |walk|
        invariant Valid()
        invariant RefreshPrefix(s0, walk, i, State())
      {
        ghost var before := State();
        var more := RefreshOne(walk[i]);
        RefreshPrefixStep(s0, walk, i, before, more, State());
        if !more {
          return false;
        }
        i := i + 1;
      }
      RefreshPrefixDone(s0, walk, State());
      return true;
    }

    /**
     * One pass of Refresh's loop: a known path is re-read and overwritten, keeping
     * its id, when its time differs; an unknown one is appended with the next id,
     * or ends the refresh when it cannot be read.
     */
    method RefreshOne(e: WalkEntry) returns (more: bool)
      requires Valid()
      modifies this`files, this`nextFileID
      ensures RefreshEntry(old(State()), e) == RefreshStep(State(), more)
    {
      if e.path in pathIndex {
        var refreshFile := GetFileData(e);
        var pos := pathIndex[e.path];
        if refreshFile.modifiedTime != files[pos].modifiedTime {
          refreshFile := refreshFile.(fileID := files[pos].fileID);
          files := files[pos := refreshFile];
        }
        return true;
      } else {
        var file := GetFileData(e);
        if file.fileID == FailedID {
          return false;
        }
        file := file.(fileID := nextFileID);
        nextFileID := nextFileID + 1;
        files := files + [file];
        return true;
      }
    }

    /** The whole ordered vector; its ids are distinct and all issued. */
    function GetAllFiles(): (r: seq<FileData>)
      requires Valid()
      reads this
      ensures r == files
      ensures IdsDistinct(r) && IdsIssued(r, nextFileID)
    {
      files
    }

    /** First position in vector order whose entry has this id. */
    method FindFileByID(id: int) returns (r: Option<nat>)
      ensures r.Some? ==> r.value < |files| && files[r.value].fileID == id
      ensures r.Some? ==> forall j :: 0 <= j < r.value ==> files[j].fileID != id
      ensures r.None? ==> forall j :: 0 <= j < |files| ==> files[j].fileID != id
    {
      var i := 0;
      while i < |files|
        invariant 0 <= i <= |files|
        invariant forall j :: 0 <= j < i ==> files[j].fileID != id
      {
        if files[i].fileID == id {
          return Some(i);
        }
        i := i + 1;
      }
      return None;
    }

    /** First position in vector order whose entry has this name (stem). */
    method FindFileByName(name: string) returns (r: Option<nat>)
      ensures r.Some? ==> r.value < |files| && files[r.value].name == name
      ensures r.Some? ==> forall j :: 0 <= j < r.value ==> files[j].name != name
      ensures r.None? ==> forall j :: 0 <= j < |files| ==> files[j].name != name
    {
      var i := 0;
      while i < |files|
        invariant 0 <= i <= |files|
        invariant forall j :: 0 <= j < i ==> files[j].name != name
      {
        if files[i].name == name {
          return Some(i);
        }
        i := i + 1;
      }
      return None;
    }

    /** The position the path index records for path, which holds an entry with that path. */
    method FindFileByPath(path: string) returns (r: Option<nat>)
      requires Valid()
      ensures r.Some? <==> path in pathIndex
      ensures r.Some? ==> r.value == pathIndex[path] && r.value < |files| && files[r.value].path == path
    {
      if path !in pathIndex {
        return None;
      }
      return Some(pathIndex[path]);
    }
  }
}
