/**
 * TagManager: tag name -> (destination, file indices), persisted to tags.json as
 * name -> destination only. The tags.json file is the `store` field: None when the
 * file does not exist, otherwise the document it holds. Whether a save gets its
 * temporary file written and renamed is an input (SaveOutcome).
 */
module TagRegistry {
  import opened Wrappers
  import Catalog

  datatype TagInfo = TagInfo(destination: string, fileIndices: seq<nat>)

  /** A tag's "destination" member as read back: a string, or missing / not a string. */
  datatype StoredDestination = DestinationString(path: string) | NotAString

  /**
   * The content of tags.json: text that does not parse, or a JSON document whose
   * "tags" member is an object (Some) or is missing or not an object (None).
   */
  datatype StoreDocument = Unparsable | Parsed(tagsObject: Option<map<string, StoredDestination>>)

  /**
   * How one SaveTagsToJson ends: written and renamed into place; the temporary
   * file could not be opened; or both renames failed, after the fallback may have
   * removed the live file.
   */
  datatype SaveOutcome = Written | TempFileUnwritable | RenameFailed(liveFileRemoved: bool)

  /** NormalizeTag is the identity: no case folding, no trimming. */
  function NormalizeTag(tag: string): (r: string)
    ensures r == tag
  {
    tag
  }

  predicate NoDuplicates(s: seq<nat>)
  {
    forall i, j :: 0 <= i < j < |s| ==> s[i] != s[j]
  }

  /** The document a save writes: every tag with its destination, and no indices. */
  function Document(tags: map<string, TagInfo>): (d: StoreDocument)
    ensures d.Parsed? && d.tagsObject.Some?
    ensures d.tagsObject.value.Keys == tags.Keys
    ensures forall n :: n in tags ==> d.tagsObject.value[n] == DestinationString(tags[n].destination)
  {
    Parsed(Some(map n | n in tags :: DestinationString(tags[n].destination)))
  }

  /** The tags a load builds from a "tags" object: empty lists, "" for a bad destination. */
  function LoadedTags(m: map<string, StoredDestination>): (tags: map<string, TagInfo>)
    ensures tags.Keys == m.Keys
    ensures forall n :: n in tags ==> tags[n].fileIndices == []
    ensures forall n :: n in tags ==>
      tags[n].destination == if m[n].DestinationString? then m[n].path else ""
  {
    map n | n in m :: TagInfo(if m[n].DestinationString? then m[n].path else "", [])
  }

  /** Saving then loading gives back every name and destination, with empty index lists. */
  lemma SaveLoadRoundTrip(tags: map<string, TagInfo>)
    ensures LoadedTags(Document(tags).tagsObject.value)
      == map n | n in tags :: TagInfo(tags[n].destination, [])
  {
  }

  /** The saved document depends only on names and destinations, never on indices. */
  lemma DocumentIgnoresIndices(t1: map<string, TagInfo>, t2: map<string, TagInfo>)
    requires t1.Keys == t2.Keys
    requires forall n :: n in t1 ==> t1[n].destination == t2[n].destination
    ensures Document(t1) == Document(t2)
  {
    assert Document(t1).tagsObject.value == Document(t2).tagsObject.value;
  }

  /** What tags.json holds after a save of tags that ended with outcome. */
  function AfterSave(prior: Option<StoreDocument>, tags: map<string, TagInfo>, outcome: SaveOutcome)
    : Option<StoreDocument>
  {
    match outcome
    case Written => Some(Document(tags))
    case TempFileUnwritable => prior
    case RenameFailed(removed) => if removed then None else prior
  }

  /** vec.erase(std::remove(vec.begin(), vec.end(), x), vec.end()). */
  function Without(s: seq<nat>, x: nat): (r: seq<nat>)
    ensures x !in r
    ensures forall y :: y != x ==> (y in r <==> y in s)
    ensures |r| <= |s|
    ensures |r| == |s| <==> x !in s
    decreases |s|
  {
    if s == [] then []
    else if s[|s| - 1] == x then Without(s[..|s| - 1], x)
    else Without(s[..|s| - 1], x) + [s[|s| - 1]]
  }

  /** Removal acts element by element, so the survivors keep their relative order. */
  lemma {:induction false} WithoutAppend(a: seq<nat>, b: seq<nat>, x: nat)
    ensures Without(a + b, x) == Without(a, x) + Without(b, x)
    decreases |b|
  {
    if b != [] {
      var b' := b[..|b| - 1];
      assert (a + b)[..|a + b| - 1] == a + b';
      WithoutAppend(a, b', x);
    } else {
      assert a + b == a;
    }
  }

  lemma {:induction false} WithoutKeepsNoDuplicates(s: seq<nat>, x: nat)
    requires NoDuplicates(s)
    ensures NoDuplicates(Without(s, x))
    decreases |s|
  {
    if s != [] {
      var init := s[..|s| - 1];
      assert forall i :: 0 <= i < |init| ==> init[i] == s[i];
      WithoutKeepsNoDuplicates(init, x);
      if s[|s| - 1] != x {
        assert s[|s| - 1] !in init;
        assert s[|s| - 1] !in Without(init, x);
      }
    }
  }

  /** Every tag with x erased from its index list; names and destinations untouched. */
  function StripIndex(tags: map<string, TagInfo>, x: nat): (r: map<string, TagInfo>)
    ensures r.Keys == tags.Keys
    ensures forall n :: n in r ==>
      r[n].destination == tags[n].destination && r[n].fileIndices == Without(tags[n].fileIndices, x)
  {
    map n | n in tags :: tags[n].(fileIndices := Without(tags[n].fileIndices, x))
  }

  /** After stripping, no tag lists x, and every other membership is kept. */
  lemma StripIndexRemovesFromAll(tags: map<string, TagInfo>, x: nat, n: string, y: nat)
    requires n in tags
    ensures n in StripIndex(tags, x)
    ensures x !in StripIndex(tags, x)[n].fileIndices
    ensures y != x ==> (y in StripIndex(tags, x)[n].fileIndices <==> y in tags[n].fileIndices)
  {
  }

  /** The tags of pending untouched, all others stripped of x: RemoveTagByIndex part way. */
  function PartlyStripped(tags: map<string, TagInfo>, x: nat, pending: set<string>): map<string, TagInfo>
  {
    map n | n in tags :: if n in pending then tags[n] else tags[n].(fileIndices := Without(tags[n].fileIndices, x))
  }

  /** Some tag outside pending lists x. */
  predicate HoldsOutside(tags: map<string, TagInfo>, x: nat, pending: set<string>)
  {
    exists n :: n in tags && n !in pending && x in tags[n].fileIndices
  }

  lemma PartlyStrippedNone(tags: map<string, TagInfo>, x: nat)
    ensures PartlyStripped(tags, x, tags.Keys) == tags
    ensures !HoldsOutside(tags, x, tags.Keys)
  {
  }

  lemma PartlyStrippedStep(tags: map<string, TagInfo>, x: nat, pending: set<string>, n: string)
    requires n in pending && pending <= tags.Keys
    ensures var t := PartlyStripped(tags, x, pending);
      PartlyStripped(tags, x, pending - {n}) == t[n := t[n].(fileIndices := Without(t[n].fileIndices, x))]
    ensures HoldsOutside(tags, x, pending - {n}) <==> HoldsOutside(tags, x, pending) || x in tags[n].fileIndices
  {
    var t := PartlyStripped(tags, x, pending);
    assert PartlyStripped(tags, x, pending - {n}).Keys == t[n := t[n].(fileIndices := Without(t[n].fileIndices, x))].Keys;
  }

  /** With nothing pending every tag is stripped, and the lists stay duplicate-free. */
  lemma PartlyStrippedAll(tags: map<string, TagInfo>, x: nat)
    ensures PartlyStripped(tags, x, {}) == StripIndex(tags, x)
    ensures HoldsOutside(tags, x, {}) <==> exists n :: n in tags && x in tags[n].fileIndices
    ensures (forall n :: n in tags ==> NoDuplicates(tags[n].fileIndices)) ==>
      forall n :: n in StripIndex(tags, x) ==> NoDuplicates(StripIndex(tags, x)[n].fileIndices)
  {
    forall n | n in tags && NoDuplicates(tags[n].fileIndices)
      ensures NoDuplicates(StripIndex(tags, x)[n].fileIndices)
    {
      WithoutKeepsNoDuplicates(tags[n].fileIndices, x);
    }
  }

  /** push_unique_index: appends idx unless std::find already sees it. */
  method PushUniqueIndex(vec: seq<nat>, idx: nat) returns (r: seq<nat>)
    ensures r == if idx in vec then vec else vec + [idx]
    ensures idx in r
    ensures NoDuplicates(vec) ==> NoDuplicates(r)
  {
    var i := 0;
    while i < |vec|
      invariant 0 <= i <= |vec|
      invariant forall j :: 0 <= j < i ==> vec[j] != idx
    {
      if vec[i] == idx {
        return vec;
      }
      i := i + 1;
    }
    return vec + [idx];
  }

  class TagManager {
    const searchManager: Catalog.SearchManager
    var tags: map<string, TagInfo>
    var store: Option<StoreDocument>

    /** Index lists are duplicate-free. */
    ghost predicate Valid()
      reads this
    {
      forall n :: n in tags ==> NoDuplicates(tags[n].fileIndices)
    }

    /** tags.json holds exactly the current names and destinations. */
    ghost predicate Persisted()
      reads this
    {
      store == Some(Document(tags))
    }

    /** Binds to the catalog and loads tags.json as it stands on disk. */
    constructor(searchManager: Catalog.SearchManager, onDisk: Option<StoreDocument>, outcome: SaveOutcome)
      ensures Valid()
      ensures this.searchManager == searchManager
      ensures onDisk == None ==> tags == map[] && store == Some(Parsed(Some(map[])))
      ensures onDisk == Some(Unparsable) ==> tags == map[] && store == onDisk
      ensures onDisk == Some(Parsed(None)) ==> tags == map[] && store == AfterSave(onDisk, map[], outcome)
      ensures onDisk.Some? && onDisk.value.Parsed? && onDisk.value.tagsObject.Some? ==>
        tags == LoadedTags(onDisk.value.tagsObject.value) && store == onDisk
    {
      this.searchManager := searchManager;
      tags := map[];
      store := onDisk;
      new;
      var _ := LoadTagsFromJson(outcome);
    }

    /** Writes name -> destination for every tag; the live file changes only as outcome says. */
    method SaveTagsToJson(outcome: SaveOutcome) returns (ok: bool)
      modifies this`store
      ensures ok == outcome.Written?
      ensures store == AfterSave(old(store), tags, outcome)
    {
      match outcome {
        case Written =>
          store := Some(Document(tags));
          ok := true;
        case TempFileUnwritable =>
          ok := false;
        case RenameFailed(removed) =>
          if removed {
            store := None;
          }
          ok := false;
      }
    }

    /**
     * Reads tags.json into the (empty) registry. A missing file is created empty;
     * text that does not parse is rejected; a document without a "tags" object is
     * reinitialised and saved; otherwise every tag is added with its destination
     * (or "") and no indices. Existing names are kept, as emplace does.
     */
    method LoadTagsFromJson(outcome: SaveOutcome) returns (ok: bool)
      requires Valid()
      modifies this`tags, this`store
      ensures Valid()
      ensures old(store) == None ==> ok && tags == old(tags) && store == Some(Parsed(Some(map[])))
      ensures old(store) == Some(Unparsable) ==> !ok && tags == old(tags) && store == old(store)
      ensures old(store) == Some(Parsed(None)) ==>
        tags == map[] && ok == outcome.Written? && store == AfterSave(old(store), map[], outcome)
      ensures old(store).Some? && old(store).value.Parsed? && old(store).value.tagsObject.Some? ==>
        ok && tags == LoadedTags(old(store).value.tagsObject.value) + old(tags) && store == old(store)
    {
      match store {
        case None =>
          store := Some(Parsed(Some(map[])));
          return true;
        case Some(Unparsable) =>
          return false;
        case Some(Parsed(None)) =>
          tags := map[];
          ok := SaveTagsToJson(outcome);
        case Some(Parsed(Some(m))) =>
          tags := LoadedTags(m) + tags;
          return true;
      }
    }

    /** std::optional<size_t> ResolveFileIndex: a stub that never resolves a path. */
    function ResolveFileIndex(filePath: string): (r: Option<nat>)
      ensures r.None?
    {
      None
    }

    /** Fails on an existing name; otherwise inserts an empty tag and saves, with no rollback. */
    method CreateTag(tagName: string, outcome: SaveOutcome) returns (ok: bool)
      requires Valid()
      modifies this`tags, this`store
      ensures Valid()
      ensures NormalizeTag(tagName) in old(tags) ==> !ok && tags == old(tags) && store == old(store)
      ensures NormalizeTag(tagName) !in old(tags) ==>
        && tags == old(tags)[NormalizeTag(tagName) := TagInfo("", [])]
        && ok == outcome.Written?
        && store == AfterSave(old(store), tags, outcome)
      ensures ok ==> Persisted()
    {
      var tag := NormalizeTag(tagName);
      if tag in tags {
        return false;
      }
      ok := InsertEmptyTag(tag, outcome);
    }

    /** emplace of a tag with no destination and no files, then a save. */
    method InsertEmptyTag(tag: string, outcome: SaveOutcome) returns (saved: bool)
      requires Valid() && tag !in tags
      modifies this`tags, this`store
      ensures Valid()
      ensures tags == old(tags)[tag := TagInfo("", [])]
      ensures saved == outcome.Written?
      ensures store == AfterSave(old(store), tags, outcome)
    {
      tags := tags[tag := TagInfo("", [])];
      saved := SaveTagsToJson(outcome);
    }

    /** Fails on an unknown name; otherwise erases the tag with its indices and saves. */
    method DeleteTag(tagName: string, outcome: SaveOutcome) returns (ok: bool)
      requires Valid()
      modifies this`tags, this`store
      ensures Valid()
      ensures NormalizeTag(tagName) !in old(tags) ==> !ok && tags == old(tags) && store == old(store)
      ensures NormalizeTag(tagName) in old(tags) ==>
        && tags == old(tags) - {NormalizeTag(tagName)}
        && ok == outcome.Written?
        && store == AfterSave(old(store), tags, outcome)
      ensures NormalizeTag(tagName) !in GetTagMap()
      ensures ok ==> Persisted()
    {
      var tag := NormalizeTag(tagName);
      if tag !in tags {
        return false;
      }
      tags := tags - {tag};
      ok := SaveTagsToJson(outcome);
    }

    /** Resolution never succeeds, so this always fails and changes nothing. */
    method AssignTag(filePath: string, tagName: string, outcome: SaveOutcome) returns (ok: bool)
      requires Valid()
      modifies this`tags, this`store
      ensures !ok && tags == old(tags) && store == old(store)
    {
      match ResolveFileIndex(filePath) {
        case None =>
          return false;
        case Some(_) =>
          // the AssignTagByIndex call that follows resolution is unreachable
          assert false;
      }
    }

    /** Resolution never succeeds, so this always fails and changes nothing. */
    method RemoveTag(filePath: string) returns (ok: bool)
      requires Valid()
      modifies this`tags
      ensures !ok && tags == old(tags)
    {
      match ResolveFileIndex(filePath) {
        case None =>
          return false;
        case Some(_) =>
          // the RemoveTagByIndex call that follows resolution is unreachable
          assert false;
      }
    }

    /**
     * Adds fileIndex to the tag's list, creating the tag first if needed. A creation
     * whose save fails is erased again and the call fails; no other tag changes.
     */
    method AssignTagByIndex(fileIndex: nat, tagName: string, outcome: SaveOutcome) returns (ok: bool)
      requires Valid()
      modifies this`tags, this`store
      ensures Valid()
      ensures var tag := NormalizeTag(tagName);
        tag in old(tags) ==>
          && ok
          && tags == old(tags)[tag := old(tags)[tag].(fileIndices :=
               if fileIndex in old(tags)[tag].fileIndices then old(tags)[tag].fileIndices
               else old(tags)[tag].fileIndices + [fileIndex])]
          && store == old(store)
      ensures var tag := NormalizeTag(tagName);
        tag !in old(tags) ==>
          && ok == outcome.Written?
          && tags == (if ok then old(tags)[tag := TagInfo("", [fileIndex])] else old(tags))
          && store == AfterSave(old(store), old(tags)[tag := TagInfo("", [])], outcome)
      ensures ok ==> NormalizeTag(tagName) in tags && fileIndex in tags[NormalizeTag(tagName)].fileIndices
      ensures ok && old(Persisted()) ==> Persisted()
      ensures ok && NormalizeTag(tagName) !in old(tags) ==> Persisted()
    {
      var tag := NormalizeTag(tagName);
      if tag !in tags {
        var saved := InsertEmptyTag(tag, outcome);
        if !saved {
          tags := tags - {tag};
          assert tags == old(tags);
          return false;
        }
      }
      AddIndex(tag, fileIndex);
      if tag !in old(tags) {
        assert [] + [fileIndex] == [fileIndex];
      }
      return true;
    }

    /** push_unique_index on the list of an existing tag; the saved document is unaffected. */
    method AddIndex(tag: string, fileIndex: nat)
      requires Valid() && tag in tags
      modifies this`tags
      ensures Valid()
      ensures tags == old(tags)[tag := old(tags)[tag].(fileIndices :=
        if fileIndex in old(tags)[tag].fileIndices then old(tags)[tag].fileIndices
        else old(tags)[tag].fileIndices + [fileIndex])]
      ensures Document(tags) == Document(old(tags))
    {
      var vec := PushUniqueIndex(tags[tag].fileIndices, fileIndex);
      tags := tags[tag := tags[tag].(fileIndices := vec)];
      DocumentIgnoresIndices(old(tags), tags);
    }

    /** Erases fileIndex from every tag's list; tags left empty stay. */
    method RemoveTagByIndex(fileIndex: nat) returns (anyRemoved: bool)
      requires Valid()
      modifies this`tags
      ensures Valid()
      ensures tags == StripIndex(old(tags), fileIndex)
      ensures anyRemoved <==> exists n :: n in old(tags) && fileIndex in old(tags)[n].fileIndices
    {
      anyRemoved := false;
      var pending := tags.Keys;
      PartlyStrippedNone(tags, fileIndex);
      while pending != {}
        invariant pending <= old(tags).Keys
        invariant tags == PartlyStripped(old(tags), fileIndex, pending)
        invariant anyRemoved <==> HoldsOutside(old(tags), fileIndex, pending)
        decreases pending
      {
        var n :| n in pending;
        PartlyStrippedStep(old(tags), fileIndex, pending, n);
        var removed := EraseIndex(n, fileIndex);
        anyRemoved := anyRemoved || removed;
        pending := pending - {n};
      }
      PartlyStrippedAll(old(tags), fileIndex);
    }

    /** One pass of RemoveTagByIndex: erases fileIndex from tag n and says whether the size changed. */
    method EraseIndex(n: string, fileIndex: nat) returns (removed: bool)
      requires n in tags
      modifies this`tags
      ensures tags == old(tags)[n := old(tags)[n].(fileIndices := Without(old(tags)[n].fileIndices, fileIndex))]
      ensures removed <==> fileIndex in old(tags)[n].fileIndices
    {
      var vec := tags[n].fileIndices;
      var oldSize := |vec|;
      vec := Without(vec, fileIndex);
      removed := |vec| != oldSize;
      tags := tags[n := tags[n].(fileIndices := vec)];
    }

    /**
     * The FileData of the tag's files: empty for an unknown tag, and empty for a
     * known one too, because each index is looked up as a null pointer.
     */
    method GetFilesByTag(tagName: string) returns (out: seq<Catalog.FileData>)
      ensures out == []
    {
      out := [];
      var tag := NormalizeTag(tagName);
      if tag !in tags {
        return;
      }
      var indices := tags[tag].fileIndices;
      var i := 0;
      while i < |indices|
        invariant 0 <= i <= |indices|
        invariant out == []
      {
        var fd: Option<Catalog.FileData> := None;
        match fd {
          case Some(f) => out := out + [f];
          case None =>
        }
        i := i + 1;
      }
    }

    /** The rebuilt view: exactly the tag names, each with its current index list. */
    function GetTagMap(): (view: map<string, seq<nat>>)
      reads this
      ensures view.Keys == tags.Keys
      ensures forall n :: n in view ==> view[n] == tags[n].fileIndices
    {
      map n | n in tags :: tags[n].fileIndices
    }
  }
}
