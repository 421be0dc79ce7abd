# Image viewer core, modelled and proved in Dafny

This project models the core of `visor_imagenes`, a desktop image viewer written in Rust. The core has five parts:

- **Texture cache** (`image_cache.dfy`, module `Cache`). A map from path to texture handle, a recency list of paths (oldest first) and a size bound. Insertion evicts from the front of the recency list while the map is at or over the bound. A hit moves the path to the back.
- **Preload scheduler** (`preload_manager.dfy`, module `Preload`). It computes the window of indices around the current image. Then it lists the paths there that are not cached yet, the current index first. It loads each listed path that is not already being loaded and queues the successful results. Later it drains the queue into the cache, oldest first.
- **Navigation state** (`navigation_manager.dfy`, module `Navigation`). The list of paths of the open folder and the index on screen, with clamping and bounded `next`/`previous`.
- **Format registry** (`image_format.dfy`, module `Format`). A case-insensitive classification of a file extension against a fixed allow-list of eight raster formats (with the aliases `jpeg` and `tif`) and one vector format (`svg`).
- **File manager** (`file_manager.dfy`, module `Files`, with `sorting.dfy`, module `Sorting`). A directory scan that filters a listing to the supported images and sorts them in place; the first index of a file in a list; and the file-dialog filter.

`common.dfy` holds Rust's `Option` and `Result`, `usize::saturating_sub`, `min` and `Iterator::position`.

Stateful parts are classes whose methods update their fields:
- `Cache.ImageCache`;
- `Preload.PreloadManager`;
- `Navigation.NavigationManager`.

Each such method is specified against a pure function of the old state, and the properties are proved about that function. For example:
- `Cache.ImageCache.Insert` is specified by `Cache.InsertState`;
- `Cache.ImageCache.Get` is specified by `Cache.Promote`.

The scan sorts an `array` in place (`Sorting.SortInPlace`). Rust's `Vec::sort` promises a sorted permutation. `Sorting.SortedUnique` proves that under a total order this determines the result.

Abstractions:
- A path is a type parameter.
- Its extension is a given function from a path to an optional OS string. That string is either UTF-8 text or not readable as text.
- Path order is a given "less or equal" function that satisfies Rust's `Ord` contract (`Sorting.TotalOrder`).
- A directory listing is an input: either a read error, or a sequence of entries, each readable (its path) or not (an error).
- The image loader is a given function from a path to an optional loaded image.
- Turning an image into a texture is also a given function.

In these points the code differs from a textbook LRU cache and from a scan that hides read errors; the model follows the code:
- **Re-insert duplicates the recency entry.** Re-inserting a cached path appends a second recency entry instead of updating the first. So the map keys and the recency list are not in bijection. `Cache.ReinsertDuplicatesEntry` shows the duplicate. `Cache.Covered` keeps only the direction that holds: every cached key is listed.
- **Eviction comes from the front.** It evicts from the front of the recency list, the oldest entry, not from its tail.
- **A size bound of 0 keeps one entry.** The eviction loop empties the cache, and then the new entry is stored (`Cache.InsertKeepsInvariant`).
- **A failed directory read is an error.** It comes back as `Err`, not as an empty list (`Files.ScanDirectory`).
- **The drain is unbounded.** It runs until the channel is empty, with no bound taken at the start. In this sequential model nothing is added to the queue while it drains, so the two readings agree.

## Model

| member | source | states |
|---|---|---|
| Common.SaturatingSub | src/core/preload_manager.rs:42 | `a - b` when `b <= a`, otherwise 0 |
| Common.Min | src/core/preload_manager.rs:43 | the result is one of its arguments and at most both |
| Common.Position | src/core/image_cache.rs:22 | an index holding `x` with no earlier `x`; `None` exactly when `x` does not occur |
| Format.SupportedExtensions | src/core/image_format.rs:52-57 | the eleven advertised extensions; `SupportedListConsistent` and `AllSupportedRecognised` tie them to the classifier |
| Format.ToLower | src/core/image_format.rs:28 | same length; each character lower-cased (ASCII letters) |
| Format.FromExtension | src/core/image_format.rs:27-40 | `Some` exactly when the lower-cased extension is on the supported list; `Vector(Svg)` exactly for "svg" |
| Format.FromPath | src/core/image_format.rs:42-46 | `None` without an extension or with a non-UTF-8 one; otherwise the classification of the extension text |
| Format.IsSupported | src/core/image_format.rs:48-50 | equals `FromPath(..).Some?`, and holds exactly when there is a UTF-8 extension whose lower-case form is on the list |
| Format.ToLowerIdempotent | src/core/image_format.rs:28 | lower-casing twice is lower-casing once |
| Format.FromExtensionCaseInsensitive | src/core/image_format.rs:28 | classifying an extension equals classifying its lower-case form |
| Format.JpegAndTiffAliases | src/core/image_format.rs:29-33 | "JPG", "jpg" and "jpeg" are JPEG; "tiff" and "tif" are TIFF |
| Format.OnlySvgIsVector | src/core/image_format.rs:29-37 | a recognised extension is vector exactly when it is "svg" |
| Format.TxtIsUnsupported | src/core/image_format.rs:38 | "txt" classifies to `None` |
| Format.SupportedListConsistent | src/core/image_format.rs:27-57 | every listed extension classifies to `Some`; every lower-case extension that classifies to `Some` is listed |
| Format.AllSupportedRecognised | src/core/image_format.rs:52-57 | every entry of the advertised list is recognised |
| Cache.EvictConsumesPrefix | src/core/image_cache.rs:33-36 | eviction consumes a prefix of the recency list, oldest first, and ends with the map below the bound or the list empty |
| Cache.EvictProperties | src/core/image_cache.rs:33-36 | a key leaves the map exactly when it is in the consumed prefix; other handles are kept; listed keys stay listed |
| Cache.Evict | src/core/image_cache.rs:33-36 | the eviction loop as a function: it never lengthens the recency list; its behaviour is stated by `EvictConsumesPrefix`, `EvictProperties`, `EvictDropsPrefix` and `EvictOnlyWhileFull` |
| Cache.EvictDropsPrefix | src/core/image_cache.rs:33-36 | the evicted map is the old map with the consumed prefix of the list removed, key by key in list order |
| Cache.EvictOnlyWhileFull | src/core/image_cache.rs:33-36 | each removal happened while the map held `max` entries or more |
| Cache.InsertState | src/core/image_cache.rs:32-40 | after insert, the path holds the new handle and is the most recent entry; the list grows by at most one |
| Cache.InsertAll | src/core/image_cache.rs:32-40 | a run of inserts, oldest first; the list grows by at most one per item |
| Cache.InsertKeepsInvariant | src/core/image_cache.rs:32-40 | insert keeps every cached key listed; the size is at most the bound, and exactly 1 when the bound is 0 |
| Cache.InsertBelowBound | src/core/image_cache.rs:33-39 | below the bound nothing is evicted: the path is added to the map and appended to the list |
| Cache.InsertAllKeepsInvariant | src/core/image_cache.rs:32-40 | any run of inserts keeps the listing and size invariants |
| Cache.InsertAllStoresLast | src/core/image_cache.rs:32-40 | after a run of inserts the last item is cached and most recent |
| Cache.EvictsOldestScenario | src/core/image_cache.rs:32-40 | with bound 2, inserting A, B, C leaves exactly {B, C}, recency [B, C] |
| Cache.ReinsertDuplicatesEntry | src/core/image_cache.rs:32-40 | inserting A twice leaves one map entry but two recency entries |
| Cache.Promote | src/core/image_cache.rs:22-25 | the list is a permutation of the old one; a listed path ends up last; an unlisted path changes nothing |
| Cache.PromoteMovesFirst | src/core/image_cache.rs:22-24 | exactly the first entry for the path moves to the back: earlier entries stay put, later ones shift forward by one |
| Cache.PromoteKeepsOthers | src/core/image_cache.rs:22-25 | the entries for other paths keep their relative order |
| Cache.PromotePreservesCovered | src/core/image_cache.rs:22-25 | promotion keeps every cached key listed |
| Cache.ImageCache.constructor | src/core/image_cache.rs:12-18 | empty map and list, bound `maxSize` |
| Cache.ImageCache.Get | src/core/image_cache.rs:20-30 | hit: the stored handle, list promoted, map unchanged; miss: `None`, nothing changed |
| Cache.ImageCache.Insert | src/core/image_cache.rs:32-40 | the eviction loop and store give exactly `InsertState` of the old state; invariant kept |
| Cache.ImageCache.Clear | src/core/image_cache.rs:42-45 | empty map and list, bound unchanged |
| Cache.ImageCache.Contains | src/core/image_cache.rs:47-49 | exactly key membership in the map; reads only |
| Preload.Window | src/core/preload_manager.rs:42-43 | the window end never passes the list length |
| Preload.WindowMembers | src/core/preload_manager.rs:42-43 | an index is in the window exactly when it is valid and at most `range` from current |
| Preload.WindowSize | src/core/preload_manager.rs:42-43 | at most `2 * range + 1` indices, including current when it is valid |
| Preload.Neighbors | src/core/preload_manager.rs:56-63 | every neighbour is in the window, not current, valid and uncached |
| Preload.CandidateIndices | src/core/preload_manager.rs:48-63 | every candidate is a valid index whose path is not cached |
| Preload.Candidates | src/core/preload_manager.rs:41-63 | the paths at the candidate indices, one per index, none of them cached |
| Preload.CandidatesInLoopOrder | src/core/preload_manager.rs:48-63 | the candidate paths are the current path (when valid and uncached) followed by the loop's pushes |
| Preload.NeighborsAscending | src/core/preload_manager.rs:56-63 | the neighbours come in strictly ascending index order |
| Preload.NeighborsComplete | src/core/preload_manager.rs:56-63 | every valid, uncached window index other than current is a neighbour |
| Preload.NeighborsCount | src/core/preload_manager.rs:56-63 | there are at most as many neighbours as window indices, minus one when current is inside |
| Preload.CurrentComesFirst | src/core/preload_manager.rs:48-53 | current is the first candidate exactly when it is valid and uncached |
| Preload.CandidatesAreWindow | src/core/preload_manager.rs:48-63 | after current, the candidates are exactly the uncached window indices other than current, ascending |
| Preload.CandidatesBounded | src/core/preload_manager.rs:42-63 | every candidate is in the window; there are at most `2 * range + 1` |
| Preload.LoadOutcome | src/core/preload_manager.rs:77-95 | what one path adds to the queue: its loaded image exactly when it was not loading and its load succeeded, otherwise nothing |
| Preload.LoadResults | src/core/preload_manager.rs:70-103 | the results a batch queues, in dispatch order, at most one per path |
| Preload.LoadResultsAppend | src/core/preload_manager.rs:76-101 | the results of a concatenated batch are the two batches' results concatenated |
| Preload.LoadResultsComplete | src/core/preload_manager.rs:77-101 | every non-loading path whose load succeeds is queued, right after the results of the paths before it |
| Preload.LoadResultsSound | src/core/preload_manager.rs:79-101 | every queued result is the successful load of a dispatched path that was not already loading |
| Preload.LoadResultsAllInFlight | src/core/preload_manager.rs:79-85 | paths that are all loading already queue nothing |
| Preload.LoadResultsAllSucceed | src/core/preload_manager.rs:77-101 | with nothing loading and every load succeeding, one result per path in order |
| Preload.Textured | src/core/preload_manager.rs:107-112 | one texture entry per queued image, under its path |
| Preload.PreloadManager.constructor | src/core/preload_manager.rs:19-29 | empty queue and loading set, the given range and loader |
| Preload.PreloadManager.CollectCandidates | src/core/preload_manager.rs:41-63 | the list the loops build is exactly `Candidates` of the paths, the cached keys, current and the range |
| Preload.PreloadManager.CollectNeighbors | src/core/preload_manager.rs:56-63 | the window loop pushes exactly the neighbour paths |
| Preload.PreloadManager.BeginLoad | src/core/preload_manager.rs:79-85 | claims the path exactly when it was not loading; the path is then loading |
| Preload.PreloadManager.EndLoad | src/core/preload_manager.rs:90-93 | removes the path from the loading set |
| Preload.PreloadManager.LoadOne | src/core/preload_manager.rs:79-95 | `None` when the path was loading, otherwise the load's outcome; the loading set is restored |
| Preload.PreloadManager.SpawnLoadingThread | src/core/preload_manager.rs:70-103 | appends exactly `LoadResults` of the batch to the queue; the loading set is restored |
| Preload.PreloadManager.PreloadImagesAroundIndex | src/core/preload_manager.rs:31-68 | the queue grows by the load results of the candidates; nothing happens for an empty list |
| Preload.PreloadManager.ProcessLoadedImages | src/core/preload_manager.rs:105-114 | the queue is emptied into the cache in FIFO order, as a run of inserts; cache invariant kept |
| Navigation.Clamp | src/ui/navigation_manager.rs:17-20 | a valid index for a non-empty list: the requested one when valid, else the last; 0 for an empty list |
| Navigation.StepPrevious | src/ui/navigation_manager.rs:22-29 | moves exactly when the index is positive, then by one down; otherwise unchanged |
| Navigation.StepNext | src/ui/navigation_manager.rs:31-38 | moves exactly when `index + 1 < len`, then by one up; otherwise unchanged |
| Navigation.StepsKeepInRange | src/ui/navigation_manager.rs:22-38 | both steps keep the index valid (or 0 for an empty list) |
| Navigation.NextThenPrevious | src/ui/navigation_manager.rs:22-38 | a successful next followed by previous restores the index |
| Navigation.PreviousThenNext | src/ui/navigation_manager.rs:22-38 | a successful previous followed by next restores a valid index |
| Navigation.AdvanceStopsAtLast | src/ui/navigation_manager.rs:31-38 | `n` presses of next from a valid index land on `min(index + n, len - 1)` |
| Navigation.NavigationManager.constructor | src/ui/navigation_manager.rs:10-15 | no paths, index 0 |
| Navigation.NavigationManager.SetImages | src/ui/navigation_manager.rs:17-20 | the new list, the clamped index; invariant established |
| Navigation.NavigationManager.Previous | src/ui/navigation_manager.rs:22-29 | follows `StepPrevious`; returns what `CanGoPrevious` said; list unchanged; invariant kept |
| Navigation.NavigationManager.Next | src/ui/navigation_manager.rs:31-38 | follows `StepNext`; returns what `CanGoNext` said; list unchanged; invariant kept |
| Navigation.NavigationManager.CanGoPrevious | src/ui/navigation_manager.rs:40-42 | what previous would return |
| Navigation.NavigationManager.CanGoNext | src/ui/navigation_manager.rs:44-46 | what next would return |
| Navigation.NavigationManager.CurrentIndex | src/ui/navigation_manager.rs:48-50 | a valid index when the list is non-empty |
| Navigation.NavigationManager.CurrentPath | src/ui/navigation_manager.rs:52-54 | `Some(paths[index])` exactly when the index is valid; `None` for an empty list |
| Navigation.NavigationManager.ImagePaths | src/ui/navigation_manager.rs:56-58 | the list, of `TotalImages` length |
| Navigation.NavigationManager.TotalImages | src/ui/navigation_manager.rs:60-62 | 0 exactly when the manager is empty |
| Navigation.NavigationManager.IsEmpty | src/ui/navigation_manager.rs:64-66 | empty means no current path and no next; under the invariant, exactly no current path and no previous |
| Navigation.NavigationManager.Clear | src/ui/navigation_manager.rs:68-71 | no paths, index 0 |
| Navigation.NextThenPreviousRestores | src/ui/navigation_manager.rs:22-38 | when next is possible, calling next and then previous leaves the index and the list as they were |
| Sorting.SortInPlace | src/core/file_manager.rs:16 | the array ends sorted and is a permutation of its old contents |
| Sorting.InsertDown | src/core/file_manager.rs:16 | one insertion pass: a sorted prefix of length i grows to length i + 1, the elements are permuted and the rest of the array is unchanged |
| Sorting.SortedUnique | src/core/file_manager.rs:16 | two sorted sequences with the same elements are equal, so the sort's result is determined |
| Files.ReadablePaths | src/core/file_manager.rs:11-12 | no more paths than entries |
| Files.ReadablePathsMembers | src/core/file_manager.rs:11-12 | a path is kept exactly when some entry is readable with that path |
| Files.SupportedPaths | src/core/file_manager.rs:13 | every kept path is supported |
| Files.SupportedPathsMembers | src/core/file_manager.rs:13 | a path is kept exactly when it is listed and supported |
| Files.Listed | src/core/file_manager.rs:10-14 | the collected paths: no more than the entries, every one supported |
| Files.ListedMembers | src/core/file_manager.rs:10-14 | a path is collected exactly when a readable entry has it and it is supported |
| Files.ScanDirectory | src/core/file_manager.rs:9-18 | a read error is returned as is; otherwise the result is sorted and a permutation of the collected paths |
| Files.FindIndexOfFile | src/core/file_manager.rs:20-22 | an index holding the target with no earlier one; `None` exactly when the target is absent |
| Files.GetSupportedFileFilter | src/core/file_manager.rs:24-26 | the label "Imagen" and the supported list, every entry of which is recognised |
| Files.NameLeTotal | src/core/file_manager.rs:16 | any two names compare |
| Files.NameLeAntisymmetric | src/core/file_manager.rs:16 | names below each other are equal |
| Files.NameLeTransitive | src/core/file_manager.rs:16 | the name order is transitive |
| Files.NameOrderIsTotal | src/core/file_manager.rs:16 | the name order meets the total-order contract |
| Files.NameExtensionOfSuffix | src/core/file_manager.rs:13 | the stand-in extension of `stem.ext` is `ext` when `ext` has no dot |
| Files.NameSupported | src/core/file_manager.rs:13 | `stem.ext` is supported exactly when `ext` lower-cased is on the list |
| Files.ExampleName | src/core/file_manager.rs:13 | a name `stem.ext` with a dot-free, lower-case extension is supported exactly when that extension is on the list |
| Files.ExampleSupported | src/core/file_manager.rs:13 | b.png, a.jpg and c.bmp are supported; readme.txt is not |
| Files.ExampleListed | src/core/file_manager.rs:10-14 | b.png, a.jpg, c.bmp, readme.txt collect to [b.png, a.jpg, c.bmp] |
| Files.ExampleExpected | src/core/file_manager.rs:10-16 | [a.jpg, b.png, c.bmp] is sorted and a permutation of that collection |
| Files.ScanExample | src/core/file_manager.rs:9-18 | scanning that folder gives exactly `Ok([a.jpg, b.png, c.bmp])` |

## Left out

- Concurrency in the preload scheduler is modelled sequentially. This covers the worker thread, the parallel iterator, the mutex around the loading set and the channel. The loaders run one after another, the loading set is a plain set and the channel is a FIFO sequence. Interleavings are not modelled. Within one batch, a path is skipped only if it was already loading when the batch started.
- Preload.PreloadManager.SpawnLoadingThread: a failed send on a closed channel is not modelled. The render loop owns the receiver for the whole run.
- Image decoding and resizing (`src/core/image_loader_factory.rs`) are not part of this model. They are calls into the `image` crate and use floating-point arithmetic. Loading is the abstract function `load`.
- Texture creation (`ctx.load_texture`) is the abstract function `makeTexture`. The texture name and its filtering options are not modelled.
- The user interface (`src/ui/viewer.rs`), the legacy viewer (`src/visor_imagenes.rs`) and the entry points (`src/app.rs`, `src/main.rs`) are not part of this model. They are egui glue, keyboard handling and process start-up.
- Format.ToLower: lower-cases ASCII letters only, not all of Unicode. The one non-ASCII character whose lower case is an ASCII letter is the Kelvin sign, which lower-cases to 'k'. No listed extension contains 'k', so classification is unaffected.
- Path handling from the standard library is not modelled. This covers `Path::extension` and the component-wise order on `PathBuf`. They are given functions: `extension` and the total order `le`.
- Files.NameExtension and Files.NameLe are simple stand-ins used only by the example scan. One takes the text after the last dot; the other is the lexicographic order on names.
- Sorting.SortInPlace is an insertion sort, not the standard library's merge sort. Both produce the unique sorted permutation (`Sorting.SortedUnique`), so the result is the same.
- `usize` is modelled as an unbounded natural number. The source's `current_index + range + 1` and `current_index + 1` are assumed not to overflow. The navigation invariant keeps the index below the list length.
- The `ImageFormat` derive of `Debug` and `Clone`, and the `#[derive]`d equality, are Dafny's built-in datatype equality.
