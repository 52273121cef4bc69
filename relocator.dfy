/**
 * FileManager: moves the files of a tag into the tag's destination directory,
 * re-reading the destination from tags.json and renaming a file whose name is
 * already taken to stem_N.ext with the smallest free N.
 *
 * The filesystem is a Disk: the set of existing paths and, among them, the
 * directories.
 */
module Relocator {
  import opened Wrappers
  import opened PathNames
  import Catalog
  import opened TagRegistry

  class Disk {
    var paths: set<string>
    var dirs: set<string>

    ghost predicate Valid()
      reads this
    {
      dirs <= paths
    }

    constructor(paths: set<string>, dirs: set<string>)
      requires dirs <= paths
      ensures Valid()
      ensures this.paths == paths && this.dirs == dirs
    {
      this.paths := paths;
      this.dirs := dirs;
    }
  }

  /** What MoveFilesByTag and MoveAllTaggedFiles deliver: a count, or an escaping exception. */
  datatype MoveResult = Moved(count: nat) | Raised

  /** What re-reading tags.json yields for one tag name. */
  datatype DestinationLookup =
    | NoStoreFile            // the file cannot be opened
    | ParseError             // operator>> throws on text that is not JSON
    | TagAbsent              // no "tags" member, or the name is not in it
    | DestinationNotString   // get<std::string>() throws
    | Destination(path: string)

  /** tags.json read back for tagName. */
  function LookupDestination(store: Option<StoreDocument>, tagName: string): (r: DestinationLookup)
    ensures r.NoStoreFile? <==> store.None?
    ensures r.ParseError? <==> store == Some(Unparsable)
    ensures r.Destination? <==>
      && store.Some? && store.value.Parsed? && store.value.tagsObject.Some?
      && tagName in store.value.tagsObject.value
      && store.value.tagsObject.value[tagName].DestinationString?
    ensures r.Destination? ==> store.value.tagsObject.value[tagName] == DestinationString(r.path)
    ensures r.DestinationNotString? <==>
      && store.Some? && store.value.Parsed? && store.value.tagsObject.Some?
      && tagName in store.value.tagsObject.value
      && store.value.tagsObject.value[tagName].NotAString?
  {
    match store
    case None => NoStoreFile
    case Some(Unparsable) => ParseError
    case Some(Parsed(None)) => TagAbsent
    case Some(Parsed(Some(m))) =>
      if tagName !in m then TagAbsent
      else match m[tagName]
        case NotAString => DestinationNotString
        case DestinationString(p) => Destination(p)
  }

  /** The lookups that throw out of MoveFilesByTag. */
  predicate Raises(store: Option<StoreDocument>, tagName: string)
  {
    LookupDestination(store, tagName).ParseError? || LookupDestination(store, tagName).DestinationNotString?
  }

  /** After a successful save, every tag reads back its own destination and nothing else is found. */
  lemma LookupAfterSave(tags: map<string, TagInfo>, tagName: string)
    ensures LookupDestination(Some(Document(tags)), tagName)
      == if tagName in tags then Destination(tags[tagName].destination) else TagAbsent
    ensures !Raises(Some(Document(tags)), tagName)
  {
  }

  /** What EnsureDirectory creates: a missing, non-empty path. */
  function Created(paths: set<string>, dest: string): (c: set<string>)
    ensures c == {} || c == {dest}
    ensures dest in c <==> dest != "" && dest !in paths
  {
    if dest != "" && dest !in paths then {dest} else {}
  }

  /** The k-th name tried for f in d: d/f first, then d/stem_k.ext. */
  function Candidate(d: string, f: string, k: nat): string
  {
    if k == 0 then Join(d, f) else Join(d, Numbered(f, k))
  }

  lemma CandidateInjective(d: string, f: string, j1: nat, j2: nat)
    requires Candidate(d, f, j1) == Candidate(d, f, j2)
    ensures j1 == j2
  {
    if j1 == 0 && j2 != 0 {
      NumberedDiffersFromOriginal(d, f, j2);
    } else if j1 != 0 && j2 == 0 {
      NumberedDiffersFromOriginal(d, f, j1);
    } else if j1 != 0 && j2 != 0 {
      NumberedInjective(d, f, j1, j2);
    }
  }

  /** Marking candidate k as seen leaves every later candidate unseen. */
  lemma CandidatesStayUnseen(d: string, f: string, k: nat, seen: set<string>)
    requires forall j: nat :: j >= k ==> Candidate(d, f, j) !in seen
    ensures forall j: nat :: j >= k + 1 ==> Candidate(d, f, j) !in seen + {Candidate(d, f, k)}
  {
    forall j: nat | j >= k + 1
      ensures Candidate(d, f, j) != Candidate(d, f, k)
    {
      if Candidate(d, f, j) == Candidate(d, f, k) {
        CandidateInjective(d, f, j, k);
      }
    }
  }

  lemma SubsetSize(a: set<string>, b: set<string>)
    requires a <= b
    ensures |a| <= |b|
  {
    assert b == a + (b - a);
  }

  /** target is the first free candidate, and k its number. */
  ghost predicate FirstFree(paths: set<string>, d: string, f: string, target: string, k: nat)
  {
    && target == Candidate(d, f, k)
    && target !in paths
    && forall j: nat :: j < k ==> Candidate(d, f, j) in paths
  }

  /** The first free candidate is unique. */
  lemma FirstFreeUnique(paths: set<string>, d: string, f: string, t1: string, k1: nat, t2: string, k2: nat)
    requires FirstFree(paths, d, f, t1, k1) && FirstFree(paths, d, f, t2, k2)
    ensures k1 == k2 && t1 == t2
  {
  }

  /** The renamed file keeps the extension: report.txt becomes report_1.txt. */
  lemma NumberedKeepsExtension(f: string, k: nat)
    requires Extension(f) != ""
    ensures Extension(Numbered(f, k)) == Extension(f)
    ensures Stem(Numbered(f, k)) == Stem(f) + "_" + Dec(k)
  {
    var e := Extension(f);
    var head := Stem(f) + "_" + Dec(k);
    var n := Numbered(f, k);
    assert n == head + e;
    assert '.' !in e[1..];
    LastIndexInSuffix(head, e, '.');
  }

  /** The last c of a + b, when b starts with c and has no other, is at |a|. */
  lemma LastIndexInSuffix(a: string, b: string, c: char)
    requires b != [] && b[0] == c && c !in b[1..]
    ensures LastIndexOf(a + b, c) == |a|
  {
    var s := a + b;
    assert s[|a|] == c;
    assert forall j :: |a| < j < |s| ==> s[j] == b[1..][j - |a| - 1];
  }

  /** The non-empty destinations that tags.json gives the names in names. */
  ghost function Destinations(store: Option<StoreDocument>, names: set<string>): set<string>
  {
    set n | n in names && LookupDestination(store, n).Destination? && LookupDestination(store, n).path != ""
      :: LookupDestination(store, n).path
  }

  lemma DestinationsAdd(store: Option<StoreDocument>, names: set<string>, n: string)
    ensures Destinations(store, names + {n}) == Destinations(store, names) +
      (if LookupDestination(store, n).Destination? then Created({}, LookupDestination(store, n).path) else {})
  {
    var lookup := LookupDestination(store, n);
    if lookup.Destination? && lookup.path != "" {
      assert lookup.path in Destinations(store, names + {n});
    }
  }

  /** Destinations grow with the set of names. */
  lemma DestinationsMonotone(store: Option<StoreDocument>, some: set<string>, names: set<string>)
    requires some <= names
    ensures Destinations(store, some) <= Destinations(store, names)
  {
  }

  /** One tag's directory creation extends the accumulated disk by that tag's destination. */
  lemma AccumulateStep(store: Option<StoreDocument>, done: set<string>, n: string,
                       p0: set<string>, d0: set<string>, p: set<string>, d: set<string>, p': set<string>, d': set<string>)
    requires p == p0 + Destinations(store, done) && d == d0 + (Destinations(store, done) - p0)
    requires var lookup := LookupDestination(store, n);
      if lookup.Destination? then p' == p + Created(p, lookup.path) && d' == d + Created(p, lookup.path)
      else p' == p && d' == d
    ensures p' == p0 + Destinations(store, done + {n})
    ensures d' == d0 + (Destinations(store, done + {n}) - p0)
  {
    DestinationsAdd(store, done, n);
  }

  class FileManager {
    const tagManager: TagManager
    const searchManager: Catalog.SearchManager

    constructor(tagManager: TagManager, searchManager: Catalog.SearchManager)
      ensures this.tagManager == tagManager && this.searchManager == searchManager
    {
      this.tagManager := tagManager;
      this.searchManager := searchManager;
    }

    /** create_directories for a path that does not exist; errors are ignored. */
    static method EnsureDirectory(dest: string, disk: Disk)
      requires disk.Valid()
      modifies disk
      ensures disk.Valid()
      ensures disk.paths == old(disk.paths) + Created(old(disk.paths), dest)
      ensures disk.dirs == old(disk.dirs) + Created(old(disk.paths), dest)
    {
      if dest !in disk.paths && dest != "" {
        disk.paths := disk.paths + {dest};
        disk.dirs := disk.dirs + {dest};
      }
    }

    /**
     * The conflict loop: destDir/fileName if free, otherwise stem_1.ext, stem_2.ext, ...
     * until one is free. Terminates because the candidates are pairwise distinct and
     * the disk is finite, so at most |paths| of them are taken.
     */
    static method ResolveCollision(destDir: string, fileName: string, disk: Disk) returns (target: string, k: nat)
      ensures FirstFree(disk.paths, destDir, fileName, target, k)
      ensures k <= |disk.paths|
    {
      target := Join(destDir, fileName);
      k := 0;
      if target in disk.paths {
        var stem := Stem(fileName);
        var ext := Extension(fileName);
        var count := 1;
        ghost var seen: set<string> := {};
        while target in disk.paths
          invariant count >= 1 && k == count - 1
          invariant target == Candidate(destDir, fileName, k)
          invariant forall j: nat :: j < k ==> Candidate(destDir, fileName, j) in disk.paths
          invariant seen <= disk.paths && |seen| == k
          invariant forall j: nat :: j >= k ==> Candidate(destDir, fileName, j) !in seen
          decreases disk.paths - seen
        {
          CandidatesStayUnseen(destDir, fileName, k, seen);
          seen := seen + {target};
          target := Join(destDir, stem + "_" + Dec(count) + ext);
          k := count;
          count := count + 1;
        }
        SubsetSize(seen, disk.paths);
      }
    }

    /**
     * Moves one file into destination: fails when the source is missing; otherwise
     * ensures the directory, picks the first free name and renames, which fails
     * when the destination exists but is not a directory.
     */
    static method MoveSingleFile(file: Catalog.FileData, destination: string, disk: Disk)
      returns (ok: bool, target: string, k: nat)
      requires disk.Valid()
      modifies disk
      ensures disk.Valid()
      ensures file.path !in old(disk.paths) ==> !ok
      ensures file.path in old(disk.paths) ==>
        (ok <==> destination == "" || destination in old(disk.dirs) || destination !in old(disk.paths))
      ensures !ok ==> disk.paths == old(disk.paths) && disk.dirs == old(disk.dirs)
      ensures ok ==>
        var before := old(disk.paths) + Created(old(disk.paths), destination);
        && FirstFree(before, destination, FileName(file.path), target, k)
        && disk.paths == before - {file.path} + {target}
        && disk.dirs == (
             var d := old(disk.dirs) + Created(old(disk.paths), destination);
             if file.path in d then d - {file.path} + {target} else d)
    {
      target, k := "", 0;
      var src := file.path;
      if src !in disk.paths {
        return false, target, k;
      }
      EnsureDirectory(destination, disk);
      target, k := ResolveCollision(destination, FileName(src), disk);
      if destination != "" && destination !in disk.dirs {
        // fs::rename throws: the destination is an existing non-directory
        return false, target, k;
      }
      disk.paths := disk.paths - {src} + {target};
      if src in disk.dirs {
        disk.dirs := disk.dirs - {src} + {target};
      }
      return true, target, k;
    }

    /** The paths of files. */
    static ghost function Sources(files: seq<Catalog.FileData>): set<string>
    {
      set i | 0 <= i < |files| :: files[i].path
    }

    /** Moves each file in turn and counts the moves that succeed. */
    static method MoveFiles(files: seq<Catalog.FileData>, destination: string, disk: Disk) returns (moved: nat)
      requires disk.Valid()
      modifies disk
      ensures disk.Valid()
      ensures moved <= |files|
      ensures files == [] ==> disk.paths == old(disk.paths) && disk.dirs == old(disk.dirs)
      ensures old(disk.paths) - Sources(files) <= disk.paths
      ensures old(disk.dirs) - Sources(files) <= disk.dirs
    {
      moved := 0;
      var i := 0;
      while i < |files|
        invariant 0 <= i <= |files| && moved <= i
        invariant disk.Valid()
        invariant i == 0 ==> disk.paths == old(disk.paths) && disk.dirs == old(disk.dirs)
        invariant old(disk.paths) - Sources(files) <= disk.paths
        invariant old(disk.dirs) - Sources(files) <= disk.dirs
      {
        ghost var src := files[i].path;
        assert src in Sources(files);
        var ok, _, _ := MoveSingleFile(files[i], destination, disk);
        if ok {
          moved := moved + 1;
        }
        i := i + 1;
      }
    }

    /**
     * Moves the files of one tag: nothing for a name the registry does not know; then
     * tags.json is re-read, and a missing file or name gives 0 while unparsable text
     * or a non-string destination raises. The destination directory is ensured, and
     * since the registry never returns FileData, no file moves.
     */
    method MoveFilesByTag(tagName: string, disk: Disk) returns (r: MoveResult)
      requires disk.Valid()
      modifies disk
      ensures disk.Valid()
      ensures r.Raised? <==> tagName in tagManager.tags && Raises(tagManager.store, tagName)
      ensures r.Moved? ==> r.count == 0
      ensures
        var lookup := LookupDestination(tagManager.store, tagName);
        if tagName in tagManager.tags && lookup.Destination? then
          && disk.paths == old(disk.paths) + Created(old(disk.paths), lookup.path)
          && disk.dirs == old(disk.dirs) + Created(old(disk.paths), lookup.path)
        else
          disk.paths == old(disk.paths) && disk.dirs == old(disk.dirs)
    {
      var view := tagManager.GetTagMap();
      if tagName !in view {
        return Moved(0);
      }
      var files := tagManager.GetFilesByTag(tagName);
      match LookupDestination(tagManager.store, tagName) {
        case NoStoreFile =>
          return Moved(0);
        case ParseError =>
          return Raised;
        case TagAbsent =>
          return Moved(0);
        case DestinationNotString =>
          return Raised;
        case Destination(destination) =>
          EnsureDirectory(destination, disk);
          var moved := MoveFiles(files, destination, disk);
          return Moved(moved);
      }
    }

    /**
     * Moves every tag of the registry's view in some order. The first tag that raises
     * ends the whole call with the exception; otherwise every tag's destination
     * directory exists afterwards and the total is 0.
     */
    method MoveAllTaggedFiles(disk: Disk) returns (r: MoveResult)
      requires disk.Valid()
      modifies disk
      ensures disk.Valid()
      ensures r.Raised? <==> exists n :: n in tagManager.tags && Raises(tagManager.store, n)
      ensures r.Moved? ==> r.count == 0
      ensures r.Moved? ==>
        var made := Destinations(tagManager.store, tagManager.tags.Keys);
        && disk.paths == old(disk.paths) + made
        && disk.dirs == old(disk.dirs) + (made - old(disk.paths))
      ensures r.Raised? ==>
        var made := Destinations(tagManager.store, tagManager.tags.Keys);
        && old(disk.paths) <= disk.paths <= old(disk.paths) + made
        && old(disk.dirs) <= disk.dirs <= old(disk.dirs) + made
    {
      var movedCount := 0;
      var view := tagManager.GetTagMap();
      var pending := view.Keys;
      ghost var done: set<string> := {};
      while pending != {}
        invariant pending + done == view.Keys && pending !! done
        invariant movedCount == 0
        invariant disk.Valid()
        invariant forall n :: n in done ==> !Raises(tagManager.store, n)
        invariant disk.paths == old(disk.paths) + Destinations(tagManager.store, done)
        invariant disk.dirs == old(disk.dirs) + (Destinations(tagManager.store, done) - old(disk.paths))
        decreases pending
      {
        var n :| n in pending;
        ghost var p, d := disk.paths, disk.dirs;
        var m := MoveFilesByTag(n, disk);
        if m.Raised? {
          DestinationsMonotone(tagManager.store, done, view.Keys);
          return Raised;
        }
        AccumulateStep(tagManager.store, done, n, old(disk.paths), old(disk.dirs), p, d, disk.paths, disk.dirs);
        movedCount := movedCount + m.count;
        pending := pending - {n};
        done := done + {n};
      }
      return Moved(movedCount);
    }
  }

  /** The first two candidates for a non-empty name differ from each other and from the directory. */
  lemma CandidatesAreNew(d: string, n: string)
    requires n != ""
    ensures Candidate(d, n, 0) != d && Candidate(d, n, 1) != d
    ensures Candidate(d, n, 0) != Candidate(d, n, 1)
  {
    assert |Candidate(d, n, 0)| > |d|;
    assert |Candidate(d, n, 1)| > |d|;
    if Candidate(d, n, 0) == Candidate(d, n, 1) {
      CandidateInjective(d, n, 0, 1);
    }
  }

  /**
   * The first of the two moves into the new directory d: d is created and the
   * file keeps its name, which is still free there.
   */
  lemma FirstMoveLands(paths: set<string>, a: string, d: string, n: string, t: string, k: nat)
    requires a in paths && n != "" && d != "" && d !in paths
    requires Candidate(d, n, 0) !in paths
    requires FirstFree(paths + Created(paths, d), d, n, t, k)
    ensures t == Candidate(d, n, 0) && k == 0
    ensures paths + Created(paths, d) - {a} + {t} == paths - {a} + {d, Candidate(d, n, 0)}
  {
    CandidatesAreNew(d, n);
    assert FirstFree(paths + {d}, d, n, Candidate(d, n, 0), 0);
    FirstFreeUnique(paths + {d}, d, n, t, k, Candidate(d, n, 0), 0);
  }

  /**
   * The second move, after the first: d exists and holds the plain name, so the
   * file lands on candidate 1, stem_1.ext.
   */
  lemma SecondMoveLands(paths: set<string>, a: string, b: string, d: string, n: string, t: string, k: nat)
    requires a in paths && b in paths && a != b && n != "" && d != "" && d !in paths
    requires Candidate(d, n, 0) !in paths && Candidate(d, n, 1) !in paths
    requires var mid := paths - {a} + {d, Candidate(d, n, 0)};
      FirstFree(mid + Created(mid, d), d, n, t, k)
    ensures t == Candidate(d, n, 1) && k == 1
    ensures var mid := paths - {a} + {d, Candidate(d, n, 0)};
      mid + Created(mid, d) - {b} + {t} == paths - {a, b} + {d, Candidate(d, n, 0), Candidate(d, n, 1)}
  {
    var c0, c1 := Candidate(d, n, 0), Candidate(d, n, 1);
    var mid := paths - {a} + {d, c0};
    CandidatesAreNew(d, n);
    assert mid + Created(mid, d) == mid;
    assert FirstFree(mid, d, n, c1, 1);
    FirstFreeUnique(mid, d, n, t, k, c1, 1);
  }

  /**
   * Two different files with the same name moved one after the other into a new
   * directory d: the first keeps its name, the second becomes stem_1.ext.
   */
  method MoveTwoSameNamed(paths: set<string>, first: Catalog.FileData, second: Catalog.FileData, d: string)
    returns (landed: set<string>)
    requires first.path in paths && second.path in paths && first.path != second.path
    requires FileName(first.path) == FileName(second.path) != ""
    requires d != "" && d !in paths
    requires Candidate(d, FileName(first.path), 0) !in paths
    requires Candidate(d, FileName(first.path), 1) !in paths
    ensures var n := FileName(first.path);
      landed == paths - {first.path, second.path} + {d, Candidate(d, n, 0), Candidate(d, n, 1)}
  {
    var n := FileName(first.path);
    var disk := new Disk(paths, {});
    var ok1, t1, k1 := FileManager.MoveSingleFile(first, d, disk);
    FirstMoveLands(paths, first.path, d, n, t1, k1);
    assert disk.dirs == {d};
    var ok2, t2, k2 := FileManager.MoveSingleFile(second, d, disk);
    SecondMoveLands(paths, first.path, second.path, d, n, t2, k2);
    landed := disk.paths;
  }
}
