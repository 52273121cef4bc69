# FileOrganiser core in Dafny

This project models the three managers of FileOrganiser and proves properties about them.

- **SearchManager** is the catalog. It holds the indexed entries of one directory tree, a path → position index, the next id to hand out, and the last scan mode.
- **TagManager** is the tag registry. It maps each tag name to a destination and a list of file indices, and persists name → destination to `tags.json`.
- **FileManager** is the move engine. It moves the files of a tag into the tag's destination and renames a file whose name is taken to `stem_N.ext`, with the smallest free `N`.

The model is split into these modules:

| module | file | stands for |
|---|---|---|
| `Wrappers` | `wrappers.dfy` | `Option` |
| `PathNames` | `paths.dfy` | the parts of `std::filesystem::path` the core uses: `filename()`, `stem()`, `extension()`, `operator/`; plus `std::to_string` |
| `Catalog` | `catalog.dfy` | `SearchManager`, `FileData`, `SearchMode`, `FileType` |
| `TagRegistry` | `tag_registry.dfy` | `TagManager`, its `TagInfo` records, and the `tags.json` document |
| `Relocator` | `relocator.dfy` | `FileManager`, plus the filesystem state that moves change |

The filesystem becomes inputs:

- **Directory walks.** Each walk is a `Listing`: a function from a root and a mode to the sequence of entries a walk yields. Each entry is a `WalkEntry` with its path, the three type tests, an integer `last_write_time`, and whether reading it raised `filesystem_error`.
- **`tags.json`.** The file is the `store` field of `TagManager`. It is `None` when the file does not exist; otherwise it holds a `StoreDocument`. That is text that does not parse, or a parsed document whose `"tags"` member is either an object of name → destination or is missing or not an object.
- **Saves.** How a save ends is a `SaveOutcome` argument:
  - the file was written and renamed into place;
  - the temporary file could not be opened;
  - both renames failed, and the live file may already have been removed.
- **Moves.** Moves act on a `Disk`, which holds the set of existing paths and, among them, the directories.

The model follows what the code does, including where that is less than a reader might expect:

- A scan stops at the first unreadable entry and keeps what it already added. It is not all-or-nothing.
- `Refresh` appends new paths but never adds them to the path index.
- `CreateTag` does not roll back its insertion when the save fails.
- `ResolveFileIndex` never resolves a path, so `AssignTag` and `RemoveTag` always fail.
- `GetFilesByTag` yields no files, so every move count is 0.

### Where the code and its documentation disagree

- **CreateTag on an existing name.** `src/Managers/TagManager.h:42-47` says the call returns true. The code at `src/Managers/TagManager.cpp:248` returns false and changes nothing. The model follows the code: `TagRegistry.TagManager.CreateTag` gives `!ok` with the registry and the store unchanged.
- **Failed saves.** `AssignTagByIndex` erases a tag it created when the save fails, "to keep memory/JSON consistent" (`src/Managers/TagManager.cpp:313-315`). `CreateTag` performs the same insertion and save (`src/Managers/TagManager.cpp:252-257`) without that erase, so after a failed save the tag stays in memory but not in `tags.json`.
- **AssignTag.** `src/Managers/TagManager.h:57-61` says the call returns false if the file "cannot be resolved via SearchManager". The code resolves through `ResolveFileIndex` (`src/Managers/TagManager.cpp:200-230`), which never consults the catalog and never resolves, so `AssignTag` and `RemoveTag` always fail.
- **Move counts.** `src/Managers/FileManager.h:15-20` promises the number of moved files. No file is ever handed to the move loop, so the count is 0. When `tags.json` does not parse, or a registered tag's stored destination is not a string, `MoveFilesByTag` raises for that tag, and so does `MoveAllTaggedFiles`. This is the `Raised` result. An unknown tag returns 0 before the file is read.

## Model

| member | source | states |
|---|---|---|
| PathNames.FileName | src/Managers/FileManager.cpp:82 | `filename()` is the suffix after the last separator. It contains no `/`, and when it is shorter than the path, a `/` precedes it. |
| PathNames.ExtensionStart | src/Managers/FileManager.cpp:87-88 | The extension starts at the last `.`. There is none for `.`, `..`, a name without a dot, or a name whose only dot is its first character. |
| PathNames.Stem | src/Managers/SearchManager.cpp:78 | `stem()` is a prefix of the file name. It is the whole name iff the name has no extension. |
| PathNames.StemThenExtension | src/Managers/FileManager.cpp:87-88 | Stem followed by extension gives back the name. With no extension the stem is the name. A non-empty extension is one `.` followed by no other `.`. |
| PathNames.Extension | src/Managers/FileManager.cpp:87-88 | Stem followed by extension is the file name. The extension is empty or one `.` followed by no other `.`. A non-empty extension has a non-empty stem. |
| PathNames.Join | src/Managers/FileManager.cpp:82 | The three cases of `operator/`: an empty directory gives `n`; a directory ending in `/` gives `d + n`; any other gives `d + "/" + n`. The result is at least as long as both parts. |
| PathNames.JoinInjective | src/Managers/FileManager.cpp:92 | Appending to the same directory is injective in the component. |
| PathNames.Dec | src/Managers/FileManager.cpp:92 | `to_string` of a counter is a non-empty string of decimal digits, with no leading zero unless the counter is 0. |
| PathNames.ParseDecOfDec | src/Managers/FileManager.cpp:92 | Reading the decimal rendering back gives the number (round trip against the reference `ParseDec`). |
| PathNames.DecInjective | src/Managers/FileManager.cpp:92 | Distinct counters render as distinct strings. |
| PathNames.Numbered | src/Managers/FileManager.cpp:92 | `stem + "_" + k + ext` is one character plus the digits of k longer than the name. |
| PathNames.NumberedInjective | src/Managers/FileManager.cpp:90-92 | Distinct counters give distinct collision names in a directory. |
| PathNames.NumberedDiffersFromOriginal | src/Managers/FileManager.cpp:85-92 | No collision name equals the original `dest/filename`. |
| Catalog.Classify | src/Managers/SearchManager.cpp:84-99 | Exactly one of the four kinds, in order: regular file, then directory, then symlink, else MISC. Each kind holds iff its test decides. |
| Catalog.GetFileData | src/Managers/SearchManager.cpp:68-118 | The id is -1 exactly when reading fails. Name is the stem of the filename, path is the entry's path, and kind is the classification. The time is the entry's time, or the epoch after a failure. |
| Catalog.FailedIDNeverIssued | src/Managers/SearchManager.cpp:27-32 | In a consistent catalog no entry carries the failure id -1. |
| Catalog.FirstUnreadable | src/Managers/SearchManager.cpp:26-30 | The position where the scan stops: all earlier entries are readable, and the entry there is not. |
| Catalog.Scanned | src/Managers/SearchManager.cpp:31-35 | Reference definition of a completed scan: the i-th walked entry with id i. |
| Catalog.ScanWalk | src/Managers/SearchManager.cpp:23-38 | The state the scan loop builds from empty: one entry and one id per walked entry. |
| Catalog.ScanWalkIsScanned | src/Managers/SearchManager.cpp:31-37 | After a scan, entries are in walk order with ids 0..n-1 and the counter is n. The index holds exactly the walked paths, each at the last position that carries it. The state is consistent. |
| Catalog.IndexesWalkSnoc | src/Managers/SearchManager.cpp:37 | Indexing the next entry at its position keeps the index exact, with later duplicates overwriting. |
| Catalog.ScannedIsConsistent | src/Managers/SearchManager.h:53-56 | An exact index over a completed scan is sound. Ids are distinct and below the counter. |
| Catalog.AppendKeepsConsistent | src/Managers/SearchManager.cpp:152-153 | Appending with the next id, without indexing, keeps the catalog consistent. |
| Catalog.OverwriteKeepsConsistent | src/Managers/SearchManager.cpp:138-143 | Overwriting a stored entry with one of the same path and id keeps the index sound and the ids distinct. |
| Catalog.RefreshEntry | src/Managers/SearchManager.cpp:132-154 | One refresh step keeps the catalog consistent. A known path is overwritten, under its id, only when the time differs. A readable unknown path is appended. An unreadable unknown path stops the refresh. |
| Catalog.RefreshEntryExtends | src/Managers/SearchManager.cpp:135-154 | One step never moves, drops or re-identifies a stored entry and never touches the index. Appended entries take the next id. |
| Catalog.OverwriteExtends | src/Managers/SearchManager.cpp:140-144 | An in-place overwrite that keeps path and id is additive. |
| Catalog.AppendExtends | src/Managers/SearchManager.cpp:152-153 | Appending with the next id is additive. |
| Catalog.ExtendsTransitive | src/Managers/SearchManager.cpp:130-155 | Additive steps compose. |
| Catalog.RefreshWalk | src/Managers/SearchManager.cpp:159-184 | Refresh over a walk stops at the first failed step and keeps the catalog consistent. |
| Catalog.RefreshAbortIsFinal | src/Managers/SearchManager.cpp:149-150 | Once a step fails, the rest of the walk changes nothing. |
| Catalog.RefreshIsAdditive | src/Managers/SearchManager.cpp:130-155 | A whole refresh leaves the index unchanged. Earlier entries keep their position, path and id; entries are never removed. Appended entries carry consecutive fresh ids. |
| Catalog.RefreshEntryOk | src/Managers/SearchManager.cpp:146-150 | A step fails iff its path is unknown and unreadable. A failed re-read of a known path is not checked. |
| Catalog.RefreshOkIff | src/Managers/SearchManager.cpp:137-150 | Refresh returns true iff every walked path the index does not know is readable. |
| Catalog.RefreshUnchangedWalk | src/Managers/SearchManager.cpp:140-145 | A walk of known paths whose times all match leaves the catalog exactly as it was. |
| Catalog.RefreshChangedEntry | src/Managers/SearchManager.cpp:137-144 | A changed time overwrites that entry in place with the new read under its old id. Every other entry stays. |
| Catalog.RefreshAppendsUnindexedAgain | src/Managers/SearchManager.cpp:148-153 | Because appended paths are not indexed, two refreshes over one new path append it twice, under two different ids. |
| Catalog.SearchManager.constructor | src/Managers/SearchManager.cpp:6-9 | Empty catalog with counter 0, and the given mode recorded. |
| Catalog.SearchManager.LoadMetaData | src/Managers/SearchManager.cpp:11-66 | Records root and mode and resets the state. Returns true iff no entry is unreadable. Otherwise the catalog holds exactly the scan of the entries before the first unreadable one. |
| Catalog.SearchManager.ScanInto | src/Managers/SearchManager.cpp:21-41 | The scan loop over an emptied catalog ends in the state of `ScanWalk` over the readable prefix. |
| Catalog.SearchManager.Push | src/Managers/SearchManager.cpp:31-37 | The entry gets the next id, is appended, and its path is indexed at its new position. The counter goes up by one. |
| Catalog.SearchManager.Refresh | src/Managers/SearchManager.cpp:121-194 | Walks the recorded root in the recorded mode. The new state and result are those of `RefreshWalk`. The index is never written. |
| Catalog.SearchManager.RefreshOne | src/Managers/SearchManager.cpp:130-155 | One loop pass changes the catalog exactly as `RefreshEntry` says. |
| Catalog.SearchManager.GetAllFiles | src/Managers/SearchManager.cpp:196-199 | The whole ordered vector. Its ids are distinct and all issued. |
| Catalog.SearchManager.FindFileByID | src/Managers/SearchManager.cpp:201-223 | The first position in vector order with that id, or none when no entry has it. |
| Catalog.SearchManager.FindFileByName | src/Managers/SearchManager.cpp:225-247 | The first position in vector order with that name, or none when no entry has it. |
| Catalog.SearchManager.FindFileByPath | src/Managers/SearchManager.cpp:249-263 | Found iff the path is indexed. The result is the indexed position, which holds an entry with that path. |
| TagRegistry.NormalizeTag | src/Managers/TagManager.cpp:391-395 | The identity. |
| TagRegistry.Document | src/Managers/TagManager.cpp:50-63 | A save writes a `"tags"` object with exactly the registry's names, each with its destination as a string. |
| TagRegistry.LoadedTags | src/Managers/TagManager.cpp:136-152 | A load builds exactly the stored names, each with an empty index list. The destination is the stored string, or `""` when it is missing or not a string. |
| TagRegistry.SaveLoadRoundTrip | src/Managers/TagManager.cpp:53-63 | Loading what a save wrote gives the same names and destinations, with empty index lists. |
| TagRegistry.DocumentIgnoresIndices | src/Managers/TagManager.cpp:58-61 | The saved document depends only on names and destinations, never on indices. |
| TagRegistry.Without | src/Managers/TagManager.cpp:333 | Erase-remove drops x and keeps every other value. It shrinks the list iff x was in it. |
| TagRegistry.WithoutAppend | src/Managers/TagManager.cpp:333 | Erase-remove acts element by element, so the survivors keep their relative order. |
| TagRegistry.WithoutKeepsNoDuplicates | src/Managers/TagManager.cpp:333 | Erase-remove keeps a duplicate-free list duplicate-free. |
| TagRegistry.StripIndex | src/Managers/TagManager.cpp:329-341 | Every tag stays, with its destination, and has x erased from its list. |
| TagRegistry.StripIndexRemovesFromAll | src/Managers/TagManager.h:63-76 | After stripping, no tag lists the file. Every other membership is unchanged, and no tag is dropped. |
| TagRegistry.PartlyStrippedAll | src/Managers/TagManager.cpp:329-346 | The finished loop has stripped every tag. Some list shrank iff some tag listed the index. Lists stay duplicate-free. |
| TagRegistry.PushUniqueIndex | src/Managers/TagManager.cpp:233-239 | Appends only when absent, so re-adding is a no-op. The index is present afterwards, and a duplicate-free list stays so. |
| TagRegistry.TagManager.constructor | src/Managers/TagManager.cpp:33-38 | Binds the catalog and loads `tags.json`. One ensures clause covers each state the file can be in. |
| TagRegistry.TagManager.SaveTagsToJson | src/Managers/TagManager.cpp:46-101 | Succeeds iff written and renamed, and the file then holds `Document(tags)`. Otherwise the file is unchanged, or gone when the fallback removed it. |
| TagRegistry.TagManager.LoadTagsFromJson | src/Managers/TagManager.cpp:103-161 | Cases on the file: a missing file is created empty; unparsable text fails with nothing changed; a document without a `"tags"` object is cleared and saved; otherwise the loaded tags are added, existing names kept. |
| TagRegistry.TagManager.CreateTag | src/Managers/TagManager.cpp:243-258 | An existing name fails with nothing changed. Otherwise the name is inserted with empty destination and list, the result is the save's, and nothing is rolled back. |
| TagRegistry.TagManager.InsertEmptyTag | src/Managers/TagManager.cpp:251-257 | Emplace of an empty tag followed by a save. |
| TagRegistry.TagManager.DeleteTag | src/Managers/TagManager.cpp:260-273 | An unknown name fails with nothing changed. Otherwise exactly that tag and its associations go, and the result is the save's. |
| TagRegistry.TagManager.ResolveFileIndex | src/Managers/TagManager.cpp:200-230 | The stub never resolves a path: the result is always none. |
| TagRegistry.TagManager.AssignTag | src/Managers/TagManager.cpp:275-285 | The path never resolves, because `ResolveFileIndex` (lines 200-230) is a stub. So it fails and changes nothing. |
| TagRegistry.TagManager.RemoveTag | src/Managers/TagManager.cpp:287-295 | The same stub makes it fail with nothing changed. |
| TagRegistry.TagManager.AssignTagByIndex | src/Managers/TagManager.cpp:297-322 | An existing tag gets the index once, and nothing else changes. A missing tag is created: a failed save erases it again, giving false with the registry as before; otherwise the tag holds just this index. On success the index is in the tag's list and a persisted registry stays persisted. |
| TagRegistry.TagManager.AddIndex | src/Managers/TagManager.cpp:319-320 | Only that tag's list changes, by a unique push; the saved document is unaffected. |
| TagRegistry.TagManager.RemoveTagByIndex | src/Managers/TagManager.cpp:324-347 | The result is `StripIndex` of the old registry, and empty tags stay. Returns true iff some tag listed the index. |
| TagRegistry.TagManager.EraseIndex | src/Managers/TagManager.cpp:331-337 | One pass: erases the index from one tag and reports whether its size changed. |
| TagRegistry.TagManager.GetFilesByTag | src/Managers/TagManager.cpp:349-368 | Always empty: for an unknown tag, and for a known one because every index lookup is null. |
| TagRegistry.TagManager.GetTagMap | src/Managers/TagManager.cpp:415-425 | The rebuilt view has exactly the tag names, each with its current index list. |
| Relocator.LookupDestination | src/Managers/FileManager.cpp:39-54 | Re-reading `tags.json`: no file gives `NoStoreFile`, for which `MoveFilesByTag` returns 0; unparsable text raises; a destination is found iff the name is stored with a string destination, and it is that string; `DestinationNotString` holds iff the name is stored with a destination that is not a string. |
| Relocator.LookupAfterSave | src/Managers/FileManager.cpp:51-54 | After a successful save, each tag reads back its own destination. Other names are absent and nothing raises. |
| Relocator.Created | src/Managers/FileManager.cpp:108-113 | `EnsureDirectory` creates the destination iff it is non-empty and missing. |
| Relocator.CandidateInjective | src/Managers/FileManager.cpp:85-93 | The names the conflict loop tries are pairwise distinct. |
| Relocator.FirstFreeUnique | src/Managers/FileManager.cpp:85-94 | The first free name is unique. |
| Relocator.NumberedKeepsExtension | src/Managers/FileManager.cpp:87-92 | The renamed file keeps the extension, and its stem is `stem_k`. |
| Relocator.FileManager.constructor | src/Managers/FileManager.cpp:8-11 | Holds the two managers and nothing else. |
| Relocator.FileManager.EnsureDirectory | src/Managers/FileManager.cpp:108-113 | A missing non-empty path becomes a directory. Otherwise nothing changes, and no error surfaces. |
| Relocator.FileManager.ResolveCollision | src/Managers/FileManager.cpp:82-94 | The target is `dest/filename` if free, else `stem_k.ext` for the least free k ≥ 1. The loop ends after at most as many tries as the disk has paths. |
| Relocator.FileManager.MoveSingleFile | src/Managers/FileManager.cpp:68-106 | A missing source fails with no change. Otherwise it succeeds iff the destination is empty, a directory or missing. On failure the disk is unchanged. On success the source is replaced by the first free name, which did not exist before, so nothing is overwritten. |
| Relocator.FileManager.MoveFiles | src/Managers/FileManager.cpp:57-63 | The count is at most the number of files. Paths that are not sources survive. An empty list changes nothing. |
| Relocator.FileManager.MoveFilesByTag | src/Managers/FileManager.cpp:26-66 | Unknown tag, missing file or missing name: 0 with no change. Unparsable text or a non-string destination: raises. Otherwise only that tag's destination directory is ensured, and the count is 0. |
| Relocator.FileManager.MoveAllTaggedFiles | src/Managers/FileManager.cpp:13-24 | Raises iff some tag raises. Otherwise the total, a sum of per-tag zeros, is 0. Exactly the non-empty destinations of the tags are created as directories. On a raise, only destinations of the registry's tags have been added, and nothing was removed. |
| Relocator.MoveTwoSameNamed | src/Managers/FileManager.cpp:82-96 | Everything else on the disk stays. Two same-named files moved into a new directory land as `name.ext` and `name_1.ext`. |

## Left out

- Walking and stat: directory iteration, `is_regular_file`/`is_directory`/`is_symlink`, `last_write_time` and the clock conversion are replaced by `WalkEntry` fields. A time is an opaque integer.
- Iterator exceptions: a walk is a finite sequence given in advance. An iterator that throws mid-walk is not modelled: uncaught in `LoadMetaData`, caught by `Refresh` (SearchManager.cpp:187-191).
- `LoadMetaData`'s third branch (SearchManager.cpp:61-65) cannot be reached with a two-valued mode and is not modelled.
- A failed read leaves what it had set before the failure; the model always gives the classification and the epoch as the time. `FileData::type` is uninitialised whenever a type query throws before one answers true.
- The id of a good read is uninitialised (SearchManager.cpp:70) and is then read by the `fileID == -1` tests at SearchManager.cpp:27, 47, 149 and 178. That read is undefined behaviour, and an indeterminate -1 would make a readable entry stop the scan or the refresh. The model writes 0, so those tests are false for every readable entry.
- Integer width: the `int` counter `m_NextFileID`, the `int count` of the collision loop (FileManager.cpp:89) and the `size_t` counts are unbounded integers. Overflow after 2^31 entries is not modelled. The collision counter cannot wrap in the model, because `ResolveCollision` ends with `k <= |disk.paths|`.
- Paths are strings with `/` as the only separator, compared as strings, with no normalisation or `absolute()`.
- The lookup overloads: each const/non-const pair of `Find*` functions is one method returning a position in the vector, which stands for the returned pointer.
- JSON: parsing, dumping, indentation, the `tags.json.tmp` file left after a failed rename, and exceptions other than parse errors are not modelled. A file that exists but cannot be opened for reading is not modelled in the load (TagManager.cpp:118-123). The empty file that a load creates is assumed written (TagManager.cpp:112-115).
- `ValidateDestination` (TagManager.cpp:163-194) is never called and is not part of this model. No operation here sets a destination other than through `tags.json`.
- The first, cached `GetTagMap` (TagManager.cpp:370-389) duplicates the second definition and is not modelled. Neither are the cache fields it uses or the global cache of the second one; the view is returned by value.
- `create_directories` also creates missing parents, and its errors are swallowed. The model only adds the destination, and the creation always succeeds.
- `rename` is modelled only failing when the destination exists but is not a directory. Other failures (permissions, another device, a directory moved into itself) are not modelled.
- "Nothing is overwritten" holds relative to `fs::exists`, which follows symlinks. A dangling symlink at the target name is invisible to the conflict loop and is replaced by `fs::rename` (FileManager.cpp:85-96). The `Disk` has no symlinks, so the model does not capture this.
- A directory moves as one path: its subtree is not carried along in the `Disk`.
- The catalog's walk and the move engine's `Disk` are independent inputs: moving files does not update the catalog, as in the source.
- `MoveAllTaggedFiles` iterates a snapshot of the tag names in an unspecified order. The source iterates the global view that every `MoveFilesByTag` call clears and rebuilds (TagManager.cpp:418, FileManager.cpp:18-20). The `clear()` invalidates the loop's iterator and also destroys the `tagName` binding passed by reference to `MoveFilesByTag`, before `tagMap.find(tagName)` reads it (FileManager.cpp:29-30). The source is therefore undefined from the first tag on; the model gives the behaviour of a loop over a private copy of the names.
- The null check in `MoveFilesByTag`'s loop (FileManager.cpp:59-60) has no counterpart: the files are `FileData` values.
- All logging to stdout and stderr. There is no concurrency in the source.
- MoveFiles (Relocator.FileManager.MoveFiles): states the bound on the count and what survives, not which files moved. Its list of files is always empty in the system.
