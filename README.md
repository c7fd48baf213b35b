# Openbox link base, modelled in Dafny

This project models the link base of Openbox's toolkit library (`obt/linkbase.c`). The
link base is the in-memory registry of desktop entries that a menu reads from. It is
kept in step with filesystem notifications from the `applications` directories under
the XDG data directories. It has these parts:

- **Directory priority table** (`PriorityTable`, built by the constructor). Each data
  directory `foo` contributes `foo/applications` with the next priority number, and that
  directory is watched. A lower number means an earlier directory, whose links win.
- **Identifier registry** (`Buckets`, `RegistryState`, the `LinkBase.LinkBase` class).
  This maps each desktop-file id to a bucket of `{priority, link}` entries. A bucket is
  sorted by strictly increasing priority, so it holds at most one entry per directory,
  and its head is the effective entry.
- **Update state machine** (`LinkBase.LinkBase.Update`, whose effect is
  `RegistryState.Outcome`). It handles four notifications:
  - ADDED does a sorted insert, skipping a directory already present.
  - REMOVED drops the entry read from the notified path.
  - MODIFIED drops that entry and re-adds it.
  - SELF_REMOVED does nothing.

  Every change reports a link added or removed to the installed update function, which
  is modelled as a log of calls.
- **Category index** (`CategoryIndex`). This maps a category tag to the links filed
  under it. The links are non-owning references, newest first. Each tracked application
  link is filed once per category it declares, whether or not it heads its bucket.
- **Locale splitting** (`Locale`). The constructor splits the locale string into
  language, country and modifier.

The class keeps the same state as `struct _ObtLinkBase` and changes it step by step, as
the C code does:

- the category loops call `CategoryAdd`/`CategoryRemove`;
- the list scans are the `FindBaseEntry*` methods;
- the constructor and the locale split are loops.

Each state-changing method promises that its whole effect equals a function on the
value-level state `RegistryState.Db`. Those functions carry the proofs:

- the invariant `Inv` is preserved (buckets non-empty and strictly sorted, one owner per
  link, and a category index that files exactly what the tracked links declare);
- ADDED is idempotent;
- ADDED followed by REMOVED restores the registry;
- MODIFIED swaps a link in place.

The steps inside `update` (`UpdateDesktopFile`, `RemoveEntry`, `ReplaceEntry`, `AddEntry`,
`TrackLink`) require only the parts of the invariant they use. `Update` derives those
parts from the invariant and re-establishes it afterwards with
`RegistryState.OutcomeKeepsInv`.

A parsed link is a heap object (`Links.Link`), because the category index compares links
by identity. The ghost map `Tracked` records which entry owns each link. The C code keeps
that information implicitly, as the list node that holds the link.

In three places the C code does not do what its own structure shows it was meant to do.
The model follows the code:

- **Repeated data directories are not collapsed.** The constructor's duplicate test
  (`obt/linkbase.c:355`) shows that a directory already seen was meant to be skipped. It
  looks up the data directory itself, though, while the table is keyed by its
  `applications` subdirectory. A data directory is skipped exactly when it is already a
  key of the table built so far, that is, when it is the `applications` directory of an
  earlier directory that was itself taken in. A data directory listed twice, with neither
  occurrence skipped, is therefore watched twice and keeps the later number
  (`PriorityTable.RepeatedDirIsNotCollapsed`). A data directory that is the `applications`
  directory of an earlier directory that was taken in is skipped
  (`PriorityTable.AppDirOfEarlierIsSkipped`). When the earlier directory was itself
  skipped, the later one need not be taken in: another directory may already have stored
  that path.
- **A codeset hides the modifier.** The codeset loop (`obt/linkbase.c:331-337`) is there
  to step over the codeset of a POSIX locale name `language[_territory][.codeset][@modifier]`,
  so that the modifier test after it (`:338`) can find the `@`. It starts on the `.`
  itself, which is not a letter, and so stops at once. So `en_US.UTF-8@euro` yields no
  modifier (`Locale.CodesetHidesModifier`, `Locale.CodesetExample`).
- **The reference count starts at zero.** The structure is zero-filled
  (`obt/linkbase.c:297`) and no line sets the count, so it starts at 0. `Unref` releases
  the registry once the count drops below 1 (`:384`), so a caller's first unref releases
  it.

Four places in `update` cannot be followed literally because they are undefined
behaviour in C. The model gives them their evident meaning:

- **Entry used as a link.** `it->data` is an entry, not a link (`:177`, `:213`); the
  model uses the entry's link.
- **Read after free.** The removed entry is read after `g_slist_delete_link` frees its
  node (`:192-193`, `:228-229`); the model releases the removed entry's link.
- **MODIFIED's priority.** MODIFIED re-adds with `priority` unset (`:159`, `:261`) and at
  a dangling position (`:268`). The model re-adds the new link with the priority of the
  entry it replaces, at the sorted position. That is the priority of the directory the
  file was read from when the notification's base path is that directory (see
  "## Left out"). No duplicate test is made, as in the source; none is
  needed, because dropping the entry frees that priority (`RegistryState.DropFreesPriority`).
- **MODIFIED's shortened bucket.** When the re-parse fails, the shortened bucket is never
  stored back (`:231` vs `:270-272`). The model stores it back, or deletes the id when the
  bucket is empty, as REMOVED does.

## Model

| member | source | states |
|---|---|---|
| `Buckets.FirstAtLeast` | obt/linkbase.c:102-112 | The scan index is the first entry whose priority number is at least `p`, or the length; every earlier entry has a smaller number. |
| `Buckets.FirstWithSource` | obt/linkbase.c:91-100 | The scan index is the first entry whose link was read from `path`, or the length; no earlier entry comes from `path`. |
| `Buckets.FindBaseEntryPriority` | obt/linkbase.c:102-112 | The list walk stops exactly at `FirstAtLeast`. |
| `Buckets.FindBaseEntryPath` | obt/linkbase.c:91-100 | The list walk stops exactly at `FirstWithSource`. |
| `Buckets.PriorityTakenIff` | obt/linkbase.c:239-245 | On a sorted bucket, the "already exists" test (the scan stops on an equal priority) holds iff some entry has that priority. |
| `Buckets.InsertKeepsSorted` | obt/linkbase.c:239-245 | Inserting a new priority at the scanned position keeps the bucket strictly sorted. The new entry follows every smaller number and precedes every larger one, and a second scan stops on it. |
| `Buckets.InsertHeadsIff` | obt/linkbase.c:238-268 | The inserted entry heads its bucket iff the bucket was empty or its old head had a larger number, i.e. iff its directory comes first. |
| `Buckets.RemoveKeepsSorted` | obt/linkbase.c:192 | Deleting one entry keeps the bucket strictly sorted, and the other entries keep their order. |
| `CategoryIndex.OccAfterAdd` | obt/linkbase.c:114-126 | `category_add` files the link under the tag once more and changes no other count; it never creates an empty bucket. |
| `CategoryIndex.OccAfterRemove` | obt/linkbase.c:128-141 | `category_remove` of a filed link files it once less under that tag and changes no other count; an emptied bucket is dropped. |
| `CategoryIndex.OccAfterAddAll` | obt/linkbase.c:274-281 | Adding a link under each declared tag files it once per occurrence of each tag. |
| `CategoryIndex.OccAfterRemoveAll` | obt/linkbase.c:183-190 | Removing a link under each declared tag, when it is filed that often, takes exactly those copies away. |
| `CategoryIndex.RemoveUndoesAdd` | obt/linkbase.c:114-141 | `category_remove` exactly undoes `category_add`, including dropping a bucket it created. |
| `CategoryIndex.AddAllMembers` | obt/linkbase.c:274-281 | Filing a link under each declared tag puts one copy in front of a tag's bucket per occurrence of the tag. |
| `CategoryIndex.RemoveAllMembers` | obt/linkbase.c:183-190 | Unfiling a link under each declared tag, from a bucket that starts with enough copies of it, takes one copy off the front per occurrence of the tag. |
| `CategoryIndex.RemoveAllUndoesAddAll` | obt/linkbase.c:183-190 | Unfiling a link under the tags it was just filed under gives back the index it was filed into, also when a tag repeats. |
| `CategoryIndex.NextTagStillFiled` | obt/linkbase.c:128-141 | During the removal loop, the next tag's bucket exists and holds the link, so `category_remove`'s unchecked lookup and walk succeed. |
| `RegistryState.IndexExact` | obt/linkbase.c:64-69 | The index invariant says exactly how often every link is filed under every tag: once per declaration for tracked applications, never otherwise. |
| `RegistryState.DetachKeepsOwners` | obt/linkbase.c:192-204 | Deleting an entry and storing the bucket back, or deleting the id when the bucket is empty, keeps buckets sorted and non-empty, and keeps every other link's owner. |
| `RegistryState.AttachKeepsOwners` | obt/linkbase.c:268-272 | Inserting a new link at the scanned position and storing the bucket back keeps buckets sorted and makes that bucket the link's owner. |
| `RegistryState.UncategorizeAgrees` | obt/linkbase.c:183-190 | Unfiling a tracked application keeps the index exact for the remaining links, and leaves the link filed nowhere. |
| `RegistryState.CategorizeAgrees` | obt/linkbase.c:274-281 | Filing a new link keeps the index exact once the link is tracked. |
| `RegistryState.DropEntryKeepsInv` | obt/linkbase.c:171-206 | The removal steps keep the invariant, and the removed link is neither owned nor filed afterwards. |
| `RegistryState.AdmitEntryKeepsInv` | obt/linkbase.c:249-283 | The add steps keep the invariant and put the new entry into the id's bucket at the position the priority scan found. |
| `RegistryState.OutcomeKeepsInv` | obt/linkbase.c:150-287 | Every notification keeps the invariant (sorted non-empty buckets, one owner per link, exact category index). |
| `RegistryState.DropFreesPriority` | obt/linkbase.c:207-232 | Once MODIFIED has dropped an entry, no entry of its priority remains, so the re-add needs no duplicate test. |
| `RegistryState.ModifiedSwapsInPlace` | obt/linkbase.c:207-283 | MODIFIED of a tracked file that yields a shown link leaves the bucket with the same directories in the same order, only that entry holding the new link; removal is reported before addition. |
| `RegistryState.AddedTwiceIsIdempotent` | obt/linkbase.c:233-249 | A repeated ADDED of the same file changes nothing and reports nothing. |
| `RegistryState.AddedSkips` | obt/linkbase.c:239-258 | ADDED is a no-op, with no report and no new link, when the directory's priority is already in the bucket or the file does not yield a link to be shown. |
| `RegistryState.RemovedDropsThatEntry` | obt/linkbase.c:171-206 | REMOVED of an untracked path changes nothing. Otherwise it removes exactly the first entry from that path: the others keep their order, the id goes with its last entry, one removal is reported, the link is unowned and unfiled, and other ids are untouched. |
| `RegistryState.AddedThenRemovedRestores` | obt/linkbase.c:171-283 | ADDED of a new file followed by REMOVED of it restores buckets, category index and owners; the update function hears "added" then "removed". |
| `Locale.LetterSpan` | obt/linkbase.c:310-347 | A letter scan ends at the first non-ASCII-letter at or after its start, or at the end. |
| `Locale.ScanLetters` | obt/linkbase.c:310-347 | The scanning loop stops exactly where `LetterSpan` says. |
| `Locale.SplitLocale` | obt/linkbase.c:310-348 | The language loop, followed by `SplitTail` after a `_`, computes `SplitSpec` of the locale string. |
| `Locale.SplitTail` | obt/linkbase.c:320-348 | The country, codeset and modifier loops compute `TailSpec` of the text after the language's `_`. |
| `Locale.LanguageIff` | obt/linkbase.c:310-319 | The language is found iff the string opens with letters ending at the end, `_`, `.` or `@`, and it is those letters. |
| `Locale.CountryIff` | obt/linkbase.c:320-330 | Language and country are found iff the string opens with letters, `_`, and letters that end the string or are followed by `.` or `@`. |
| `Locale.ModifierIff` | obt/linkbase.c:338-348 | All three parts are found iff the string is letters `_` letters `@` letters and nothing else. |
| `Locale.CodesetHidesModifier` | obt/linkbase.c:331-338 | As written, any locale with a codeset after the country yields no modifier. |
| `Locale.CodesetExample` | obt/linkbase.c:331-338 | `en_US.UTF-8@euro` splits into `en`, `US` and no modifier. |
| `Locale.ModifierExample` | obt/linkbase.c:338-348 | `en_US@euro` splits into `en`, `US` and `euro`. |
| `PriorityTable.AppDir` | obt/linkbase.c:359 | The applications directory extends the data directory. |
| `PriorityTable.BuildTableWellFormed` | obt/linkbase.c:353-373 | Numbers run 0, 1, 2, … along the watches. Every stored directory maps to its latest watch, and exactly the watched directories are stored. |
| `PriorityTable.DistinctDirsGetTheirIndex` | obt/linkbase.c:353-373 | With distinct data directories, none the applications directory of another, the `i`-th gets priority `i`, and each is watched once, in order. |
| `PriorityTable.TableHoldsAppDirs` | obt/linkbase.c:353-373 | Whatever the data directories, every path in the table is the applications directory of one of them. |
| `PriorityTable.BuildTableGrows` | obt/linkbase.c:353-373 | Later data directories only add: the watches made so far stay, in order, and a stored directory stays stored. |
| `PriorityTable.RepeatedDirIsNotCollapsed` | obt/linkbase.c:355-367 | A data directory listed twice, neither occurrence of which is already a key of the table built before it, is watched at both places; the table keeps the later number and no directory keeps the earlier one. |
| `PriorityTable.AppDirOfEarlierIsSkipped` | obt/linkbase.c:355-367 | A data directory that is the applications directory of an earlier directory that was taken in gets no number and no watch: the table is as if it were not listed. |
| `PriorityTable.RepeatedDirExample` | obt/linkbase.c:355-367 | `/usr/share` listed twice is watched twice and stored with number 1. |
| `PriorityTable.AppDirOfEarlierExample` | obt/linkbase.c:355-367 | `/usr/share` followed by `/usr/share/applications` gives one watch, number 0. |
| `LinkBase.LinkBase.constructor` | obt/linkbase.c:289-375 | Creation: the count is 0, the locale parts are `SplitSpec(locale)`, the table and watch list are `BuildTable(dataDirs)`, nothing is tracked, no function is installed, and the invariant holds. |
| `LinkBase.LinkBase.Ref` | obt/linkbase.c:377-380 | The count goes up by one. |
| `LinkBase.LinkBase.Unref` | obt/linkbase.c:382-400 | The count goes down by one, and the registry is released iff it falls below one. |
| `LinkBase.LinkBase.SetUpdateFunc` | obt/linkbase.c:402-407 | The new function and data replace the installed ones. |
| `LinkBase.LinkBase.Category` | obt/linkbase.c:409-416 | An absent tag gives nothing. Under the invariant, the result holds exactly the tracked application links declaring the tag, each as often as it declares it. |
| `LinkBase.LinkBase.CategoryAdd` | obt/linkbase.c:114-126 | The new index is `CatAdd` of the old one: the bucket is created when missing and the link is prepended. |
| `LinkBase.LinkBase.CategoryRemove` | obt/linkbase.c:128-141 | Given that the link is filed under the tag, the new index is `CatRemove` of the old one: its first occurrence is unlinked, and an emptied bucket is dropped. |
| `LinkBase.LinkBase.UnfileLink` | obt/linkbase.c:183-190 | The removal loop unfiles the link under each declared category in turn. |
| `LinkBase.LinkBase.FileLink` | obt/linkbase.c:274-281 | The add loop files the link under each declared category in turn. |
| `LinkBase.LinkBase.RemoveEntry` | obt/linkbase.c:173-205 | Given that the link is filed under its categories, the removal steps turn the state into `DropEntry` of the old state. |
| `LinkBase.LinkBase.AddEntry` | obt/linkbase.c:249-283 | The add steps make a fresh link from the parse exactly when the parse exists and is to be shown; the state becomes `AddStep` of the old state. |
| `LinkBase.LinkBase.TrackLink` | obt/linkbase.c:260-281 | With the new link in hand, the state becomes `AdmitEntry` of the old state: reported, inserted at the scanned position, owned and filed. |
| `LinkBase.LinkBase.ReplaceEntry` | obt/linkbase.c:207-283 | MODIFIED of a found entry: the state becomes `DropEntry` of the old state and then, when the parse exists and is to be shown, `AdmitEntry` of a fresh link under the removed entry's priority. |
| `LinkBase.LinkBase.Update` | obt/linkbase.c:150-287 | A non-`.desktop` file changes nothing. Otherwise the new state is `Outcome` of the old one and the invariant holds; a fresh link from the parse is tracked iff `AddsLink`. |
| `LinkBase.LinkBase.UpdateDesktopFile` | obt/linkbase.c:165-284 | For a `.desktop` file, given sorted buckets whose links are filed under their categories, the new state is `Outcome` of the old one, and a fresh link is tracked iff `AddsLink`. |

## Left out

- Filesystem watching (`obt_watch_new`, `obt_watch_add`, `obt_watch_unref`) is I/O. Notifications are explicit `Update` calls; the constructor only records the watched directories. The replay of existing files as ADDED while a watch is added, interleaved with the constructor loop, is not modelled.
- Desktop-file parsing, id derivation and the visibility test (`obt_link_from_ddfile`, `obt_link_id_from_ddfile`, `obt_link_display`) are external. They enter as the `parsed` argument of `Update` and as the `idFromPath` and `display` function fields. The link's source file, type and categories (`obt_link_source_file`, `obt_link_type`, `obt_link_app_categories`) are the `Link` object's fields. The keys the visibility test reads (`NoDisplay`, `Hidden`, `OnlyShowIn`, `NotShowIn`) are one opaque `attributes` number in the parsed record, so a MODIFIED re-parse may hide a shown file; how `obt_link_display` decides is not modelled.
- The update function pointer and its user data are opaque numbers in `Callback`. Each call is an entry in the `events` log; what the function does, including any re-entrant query, is not modelled.
- Memory management is not modelled: `g_slice` and `g_free`, `base_entry_free`, `base_entry_list_free`, `category_free`, the id-key freeing around `g_hash_table_insert`, `obt_link_unref`, `obt_paths_ref`/`unref`, and the teardown in `obt_linkbase_unref`. Releasing a link is its removal from `Tracked`.
- `AppDir` treats `g_build_filename` as concatenation with `/applications`. Separator collapsing for directories that end in `/` is not modelled.
- `Update` requires an ADDED notification's base path to be a watched directory, because the source dereferences the priority lookup unchecked (`obt/linkbase.c:235-239`).
- `CategoryRemove` requires the link to be filed under the tag, because the source dereferences the lookup and walks the list unchecked (`obt/linkbase.c:133-137`). The removal steps prove that this always holds.
- Ordering the category index is left to the sequence model. Only the multiplicity of each link per tag is stated as an invariant; the newest-first order follows from `CatAdd`'s prepend.
- `RegistryState.AddedThenRemovedRestores` assumes that the bucket holds no other entry read from the same path, because REMOVED drops the first entry from that path and would otherwise take out an older one.
- `ReplaceEntry` and `RegistryState.Outcome` re-add a MODIFIED file under the priority of the entry they drop. That equals the priority of the notified directory (`pathToPriority[basePath]`) only when the notification comes from the directory the file was first read from. The model assumes this of well-formed notifications and does not check it.
