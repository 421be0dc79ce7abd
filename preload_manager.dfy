/** The preload scheduler, run sequentially: it picks the paths around the
    current index that are not cached yet (current one first), loads each
    one that is not already marked as loading, queues the successful
    results, and later drains the queue into the cache. */
module Preload {
  import opened Common
  import opened Cache

  /** The half-open index window [start, end) around current: start is
      current.saturating_sub(range), end is (current + range + 1).min(len). */
  function Window(len: nat, current: nat, range: nat): (w: (nat, nat))
    ensures w.1 <= len
  {
    (SaturatingSub(current, range), Min(current + range + 1, len))
  }

  /** An index is in the window exactly when it is a valid index at
      distance at most range from current. */
  lemma WindowMembers(len: nat, current: nat, range: nat, i: nat)
    ensures var w := Window(len, current, range);
            w.0 <= i < w.1 <==> i < len && current <= i + range && i <= current + range
  {
  }

  /** The window holds at most 2 * range + 1 indices, and holds current
      whenever current is a valid index. */
  lemma WindowSize(len: nat, current: nat, range: nat)
    ensures var w := Window(len, current, range);
            w.1 <= w.0 + 2 * range + 1 && (current < len ==> w.0 <= current < w.1)
  {
  }

  /** Whether the loop over the window keeps index i as a neighbour. */
  predicate KeepNeighbor<K>(paths: seq<K>, cached: set<K>, current: nat, i: nat) {
    i != current && i < |paths| && paths[i] !in cached
  }

  /** The neighbour indices the loop over lo..hi pushes, in ascending order. */
  function Neighbors<K>(paths: seq<K>, cached: set<K>, current: nat, lo: nat, hi: nat): (r: seq<nat>)
    ensures forall k :: 0 <= k < |r| ==> lo <= r[k] < hi && KeepNeighbor(paths, cached, current, r[k])
    decreases hi
  {
    if hi <= lo then []
    else Neighbors(paths, cached, current, lo, hi - 1)
         + (if KeepNeighbor(paths, cached, current, hi - 1) then [hi - 1] else [])
  }

  /** The candidate indices of preload_images_around_index: the current
      index first when it is valid and not cached, then the neighbours. */
  function CandidateIndices<K>(paths: seq<K>, cached: set<K>, current: nat, range: nat): (r: seq<nat>)
    ensures forall k :: 0 <= k < |r| ==> r[k] < |paths| && paths[r[k]] !in cached
  {
    if |paths| == 0 then []
    else
      var w := Window(|paths|, current, range);
      (if current < |paths| && paths[current] !in cached then [current] else [])
      + Neighbors(paths, cached, current, w.0, w.1)
  }

  /** The paths at the given indices, in the same order. */
  function PathsAt<K>(paths: seq<K>, idx: seq<nat>): (r: seq<K>)
    requires forall k :: 0 <= k < |idx| ==> idx[k] < |paths|
    ensures |r| == |idx| && forall k :: 0 <= k < |idx| ==> r[k] == paths[idx[k]]
  {
    seq(|idx|, k requires 0 <= k < |idx| => paths[idx[k]])
  }

  /** The paths dispatched for loading around current. */
  function Candidates<K>(paths: seq<K>, cached: set<K>, current: nat, range: nat): (r: seq<K>)
    ensures |r| == |CandidateIndices(paths, cached, current, range)|
    ensures forall k :: 0 <= k < |r| ==> r[k] !in cached
  {
    PathsAt(paths, CandidateIndices(paths, cached, current, range))
  }

  /** The paths at the neighbour indices, as the loop pushes them. */
  function NeighborPaths<K>(paths: seq<K>, cached: set<K>, current: nat, lo: nat, hi: nat): seq<K>
    decreases hi
  {
    if hi <= lo then []
    else NeighborPaths(paths, cached, current, lo, hi - 1)
         + (if KeepNeighbor(paths, cached, current, hi - 1) then [paths[hi - 1]] else [])
  }

  lemma {:induction false} NeighborPathsAt<K>(paths: seq<K>, cached: set<K>, current: nat, lo: nat, hi: nat)
    ensures NeighborPaths(paths, cached, current, lo, hi) == PathsAt(paths, Neighbors(paths, cached, current, lo, hi))
    decreases hi
  {
    if lo < hi {
      NeighborPathsAt(paths, cached, current, lo, hi - 1);
    }
  }

  /** The candidates as the loop produces them: the current path when it
      is valid and not cached, then the neighbour paths. */
  lemma CandidatesInLoopOrder<K>(paths: seq<K>, cached: set<K>, current: nat, range: nat)
    ensures var w := Window(|paths|, current, range);
            Candidates(paths, cached, current, range)
            == (if current < |paths| && paths[current] !in cached then [paths[current]] else [])
               + NeighborPaths(paths, cached, current, w.0, w.1)
  {
    var w := Window(|paths|, current, range);
    NeighborPathsAt(paths, cached, current, w.0, w.1);
    if |paths| > 0 {
      var h := if current < |paths| && paths[current] !in cached then [current] else [];
      var n := Neighbors(paths, cached, current, w.0, w.1);
      assert CandidateIndices(paths, cached, current, range) == h + n;
      PathsAtAppend(paths, h, n);
    }
  }

  /** PathsAt distributes over concatenation of index lists. */
  lemma PathsAtAppend<K>(paths: seq<K>, a: seq<nat>, b: seq<nat>)
    requires forall k :: 0 <= k < |a| ==> a[k] < |paths|
    requires forall k :: 0 <= k < |b| ==> b[k] < |paths|
    ensures forall k :: 0 <= k < |a + b| ==> (a + b)[k] < |paths|
    ensures PathsAt(paths, a + b) == PathsAt(paths, a) + PathsAt(paths, b)
  {
    assert forall k :: 0 <= k < |a + b| ==> (a + b)[k] == (if k < |a| then a[k] else b[k - |a|]);
  }

  /** Strictly ascending. */
  predicate Ascending(s: seq<nat>) {
    forall k, l :: 0 <= k < l < |s| ==> s[k] < s[l]
  }

  /** The neighbours come in ascending index order. */
  lemma {:induction false} NeighborsAscending<K>(paths: seq<K>, cached: set<K>, current: nat, lo: nat, hi: nat)
    ensures Ascending(Neighbors(paths, cached, current, lo, hi))
    decreases hi
  {
    if lo < hi {
      NeighborsAscending(paths, cached, current, lo, hi - 1);
      var a := Neighbors(paths, cached, current, lo, hi - 1);
      var r := Neighbors(paths, cached, current, lo, hi);
      assert r == a + (if KeepNeighbor(paths, cached, current, hi - 1) then [hi - 1] else []);
      forall k, l | 0 <= k < l < |r| ensures r[k] < r[l] {
        if l >= |a| {
          assert r[l] == hi - 1 && r[k] == a[k] && a[k] < hi - 1;
        } else {
          assert r[k] == a[k] && r[l] == a[l];
        }
      }
    }
  }

  /** Every valid window index other than current whose path is not
      cached is among the neighbours. */
  lemma {:induction false} NeighborsComplete<K>(paths: seq<K>, cached: set<K>, current: nat, lo: nat, hi: nat, i: nat)
    requires lo <= i < hi && KeepNeighbor(paths, cached, current, i)
    ensures i in Neighbors(paths, cached, current, lo, hi)
    decreases hi
  {
    if i < hi - 1 {
      NeighborsComplete(paths, cached, current, lo, hi - 1, i);
    }
  }

  /** The neighbours are at most the window's indices, minus current when
      current lies inside it. */
  lemma {:induction false} NeighborsCount<K>(paths: seq<K>, cached: set<K>, current: nat, lo: nat, hi: nat)
    requires lo <= hi
    ensures |Neighbors(paths, cached, current, lo, hi)| + (if lo <= current < hi then 1 else 0) <= hi - lo
    decreases hi
  {
    if lo < hi {
      NeighborsCount(paths, cached, current, lo, hi - 1);
    }
  }

  /** The current index is the first candidate exactly when it is a valid
      index whose path is not cached. */
  lemma CurrentComesFirst<K>(paths: seq<K>, cached: set<K>, current: nat, range: nat)
    requires |paths| > 0
    ensures var c := CandidateIndices(paths, cached, current, range);
            (|c| > 0 && c[0] == current) <==> (current < |paths| && paths[current] !in cached)
  {
  }

  /** The candidates after the (possibly absent) current one are exactly
      the uncached window indices other than current, in ascending order. */
  lemma CandidatesAreWindow<K>(paths: seq<K>, cached: set<K>, current: nat, range: nat, i: nat)
    requires |paths| > 0
    ensures var c := CandidateIndices(paths, cached, current, range);
            var w := Window(|paths|, current, range);
            var rest := if current < |paths| && paths[current] !in cached then c[1..] else c;
            && Ascending(rest)
            && (i in rest <==> w.0 <= i < w.1 && KeepNeighbor(paths, cached, current, i))
  {
    var w := Window(|paths|, current, range);
    var c := CandidateIndices(paths, cached, current, range);
    var rest := if current < |paths| && paths[current] !in cached then c[1..] else c;
    assert rest == Neighbors(paths, cached, current, w.0, w.1);
    NeighborsAscending(paths, cached, current, w.0, w.1);
    if w.0 <= i < w.1 && KeepNeighbor(paths, cached, current, i) {
      NeighborsComplete(paths, cached, current, w.0, w.1, i);
    }
  }

  /** Every candidate lies in the window and there are at most
      2 * range + 1 of them. */
  lemma CandidatesBounded<K>(paths: seq<K>, cached: set<K>, current: nat, range: nat)
    ensures var c := CandidateIndices(paths, cached, current, range);
            var w := Window(|paths|, current, range);
            && (forall k :: 0 <= k < |c| ==> w.0 <= c[k] < w.1)
            && |c| <= 2 * range + 1
  {
    if |paths| > 0 {
      var w := Window(|paths|, current, range);
      if w.0 <= w.1 {
        NeighborsCount(paths, cached, current, w.0, w.1);
      }
    }
  }

  /** What one path contributes to the result queue: nothing when it is
      already loading or its load fails, the loaded image otherwise. */
  function LoadOutcome<K, I>(path: K, loading: set<K>, load: K -> Option<(K, I)>): (r: seq<(K, I)>)
    ensures |r| <= 1
    ensures r != [] <==> path !in loading && load(path).Some?
    ensures r != [] ==> r[0] == load(path).value
  {
    if path in loading then []
    else match load(path)
      case None => []
      case Some(loaded) => [loaded]
  }

  /** The results a batch queues, in dispatch order. */
  function LoadResults<K, I>(paths: seq<K>, loading: set<K>, load: K -> Option<(K, I)>): (r: seq<(K, I)>)
    ensures |r| <= |paths|
    decreases |paths|
  {
    if paths == [] then []
    else LoadResults(paths[..|paths| - 1], loading, load) + LoadOutcome(paths[|paths| - 1], loading, load)
  }

  /** Every queued result is the successful load of a dispatched path
      that was not already loading. */
  lemma {:induction false} LoadResultsSound<K, I>(paths: seq<K>, loading: set<K>, load: K -> Option<(K, I)>, j: nat)
    requires j < |LoadResults(paths, loading, load)|
    ensures exists i :: 0 <= i < |paths| && paths[i] !in loading && load(paths[i]) == Some(LoadResults(paths, loading, load)[j])
    decreases |paths|
  {
    var init := paths[..|paths| - 1];
    var front := LoadResults(init, loading, load);
    if j < |front| {
      LoadResultsSound(init, loading, load, j);
      var i :| 0 <= i < |init| && init[i] !in loading && load(init[i]) == Some(front[j]);
      assert paths[i] == init[i];
    } else {
      var i := |paths| - 1;
      assert paths[i] !in loading && load(paths[i]) == Some(LoadResults(paths, loading, load)[j]);
    }
  }

  /** The results of two batches run back to back are the results of
      the first followed by those of the second. */
  lemma {:induction false} LoadResultsAppend<K, I>(a: seq<K>, b: seq<K>, loading: set<K>, load: K -> Option<(K, I)>)
    ensures LoadResults(a + b, loading, load) == LoadResults(a, loading, load) + LoadResults(b, loading, load)
    decreases |b|
  {
    if b == [] {
      assert a + b == a;
    } else {
      var b' := b[..|b| - 1];
      assert (a + b)[..|a + b| - 1] == a + b';
      assert (a + b)[|a + b| - 1] == b[|b| - 1];
      LoadResultsAppend(a, b', loading, load);
    }
  }

  /** Every dispatched path that is not loading and loads successfully is
      queued, at the position right after the results of the paths before
      it: no success is dropped and dispatch order is kept. */
  lemma LoadResultsComplete<K, I>(paths: seq<K>, loading: set<K>, load: K -> Option<(K, I)>, i: nat)
    requires i < |paths| && paths[i] !in loading && load(paths[i]).Some?
    ensures var r := LoadResults(paths, loading, load);
            var before := |LoadResults(paths[..i], loading, load)|;
            before < |r| && r[before] == load(paths[i]).value
            && load(paths[i]).value in r
  {
    assert paths == paths[..i] + ([paths[i]] + paths[i + 1..]);
    LoadResultsAppend(paths[..i], [paths[i]] + paths[i + 1..], loading, load);
    LoadResultsAppend([paths[i]], paths[i + 1..], loading, load);
    assert LoadResults([paths[i]], loading, load) == LoadOutcome(paths[i], loading, load) by {
      assert [paths[i]][..0] == [];
    }
  }

  /** A batch whose paths are all loading already queues nothing. */
  lemma {:induction false} LoadResultsAllInFlight<K, I>(paths: seq<K>, loading: set<K>, load: K -> Option<(K, I)>)
    requires forall i :: 0 <= i < |paths| ==> paths[i] in loading
    ensures LoadResults(paths, loading, load) == []
    decreases |paths|
  {
    if paths != [] {
      LoadResultsAllInFlight(paths[..|paths| - 1], loading, load);
    }
  }

  /** When no path is loading and every load succeeds, the queue gets one
      result per path, in order. */
  lemma {:induction false} LoadResultsAllSucceed<K, I>(paths: seq<K>, loading: set<K>, load: K -> Option<(K, I)>)
    requires forall i :: 0 <= i < |paths| ==> paths[i] !in loading && load(paths[i]).Some?
    ensures var r := LoadResults(paths, loading, load);
            |r| == |paths| && forall i :: 0 <= i < |paths| ==> Some(r[i]) == load(paths[i])
    decreases |paths|
  {
    if paths != [] {
      LoadResultsAllSucceed(paths[..|paths| - 1], loading, load);
    }
  }

  /** The cache handles made from a run of queued results. */
  function Textured<K, I, T>(results: seq<(K, I)>, makeTexture: (K, I) -> T): (r: seq<(K, T)>)
    ensures |r| == |results|
    ensures forall i :: 0 <= i < |results| ==> r[i] == (results[i].0, makeTexture(results[i].0, results[i].1))
  {
    seq(|results|, i requires 0 <= i < |results| => (results[i].0, makeTexture(results[i].0, results[i].1)))
  }

  class PreloadManager<K(==), I> {
    /** The channel from the loaders to the render loop, oldest first. */
    var queue: seq<(K, I)>
    /** The paths being loaded right now. */
    var loadingPaths: set<K>
    const preloadRange: nat
    /** The image loader: an image for the path, or None on any failure. */
    const load: K -> Option<(K, I)>

    /** PreloadManager::new: an empty channel and loading set. */
    constructor (preloadRange: nat, load: K -> Option<(K, I)>)
      ensures queue == [] && loadingPaths == {}
      ensures this.preloadRange == preloadRange && this.load == load
    {
      queue := [];
      loadingPaths := {};
      this.preloadRange := preloadRange;
      this.load := load;
    }

    /** The candidate list of preload_images_around_index, built by the
        same loop: the current path first, then the window in index order,
        skipping cached paths. */
    method CollectCandidates<T>(paths: seq<K>, current: nat, cache: ImageCache<K, T>) returns (toLoad: seq<K>)
      ensures toLoad == Candidates(paths, cache.textures.Keys, current, preloadRange)
    {
      var w := Window(|paths|, current, preloadRange);
      toLoad := [];
      if current < |paths| {
        if !cache.Contains(paths[current]) {
          toLoad := [paths[current]];
        }
      }
      var neighbors := CollectNeighbors(paths, current, cache, w.0, w.1);
      toLoad := toLoad + neighbors;
      CandidatesInLoopOrder(paths, cache.textures.Keys, current, preloadRange);
    }

    /** The loop over the window [start, end) of CollectCandidates. */
    method CollectNeighbors<T>(paths: seq<K>, current: nat, cache: ImageCache<K, T>, start: nat, end: nat)
      returns (found: seq<K>)
      ensures found == NeighborPaths(paths, cache.textures.Keys, current, start, end)
    {
      found := [];
      var i := start;
      while i < end
        invariant start <= i && (i <= end || i == start)
        invariant found == NeighborPaths(paths, cache.textures.Keys, current, start, i)
        decreases end - i
      {
        if i != current && i < |paths| {
          if !cache.Contains(paths[i]) {
            found := found + [paths[i]];
          }
        }
        i := i + 1;
      }
    }

    /** The first critical section of a loader: skip the path when it is
        already loading, otherwise mark it as loading. */
    method BeginLoad(path: K) returns (claimed: bool)
      modifies this
      ensures claimed == (path !in old(loadingPaths))
      ensures loadingPaths == old(loadingPaths) + {path}
      ensures queue == old(queue)
    {
      if path in loadingPaths {
        return false;
      }
      loadingPaths := loadingPaths + {path};
      claimed := true;
    }

    /** The second critical section of a loader: unmark the path. */
    method EndLoad(path: K)
      modifies this
      ensures loadingPaths == old(loadingPaths) - {path}
      ensures queue == old(queue)
    {
      loadingPaths := loadingPaths - {path};
    }

    /** One loader step: claim the path, load it while it is marked as
        loading, then unmark it whatever the outcome. */
    method LoadOne(path: K) returns (result: Option<(K, I)>)
      modifies this
      ensures result == (if path in old(loadingPaths) then None else load(path))
      ensures loadingPaths == old(loadingPaths)
      ensures queue == old(queue)
    {
      var claimed := BeginLoad(path);
      if !claimed {
        return None;
      }
      assert path in loadingPaths;
      result := load(path);
      EndLoad(path);
    }

    /** spawn_loading_thread, one path after another: each successful load
        is sent on the channel, failures are dropped. */
    method SpawnLoadingThread(paths: seq<K>)
      modifies this
      ensures loadingPaths == old(loadingPaths)
      ensures queue == old(queue) + LoadResults(paths, old(loadingPaths), load)
    {
      var i := 0;
      while i < |paths|
        invariant 0 <= i <= |paths|
        invariant loadingPaths == old(loadingPaths)
        invariant queue == old(queue) + LoadResults(paths[..i], old(loadingPaths), load)
      {
        var result := LoadOne(paths[i]);
        match result {
          case Some(loaded) => queue := queue + [loaded];
          case None =>
        }
        assert paths[..i + 1][..i] == paths[..i];
        i := i + 1;
      }
      assert paths[..|paths|] == paths;
    }

    /** preload_images_around_index: nothing for an empty list; otherwise
        the candidates are dispatched when there are any. */
    method PreloadImagesAroundIndex<T>(paths: seq<K>, current: nat, cache: ImageCache<K, T>)
      modifies this
      ensures loadingPaths == old(loadingPaths)
      ensures queue == old(queue) + LoadResults(Candidates(paths, cache.textures.Keys, current, preloadRange), old(loadingPaths), load)
      ensures paths == [] ==> queue == old(queue)
    {
      if |paths| == 0 {
        return;
      }
      var toLoad := CollectCandidates(paths, current, cache);
      if |toLoad| > 0 {
        SpawnLoadingThread(toLoad);
      }
    }

    /** process_loaded_images: drain the channel in FIFO order, turning
        each image into a texture and inserting it under its path. */
    method ProcessLoadedImages<T>(cache: ImageCache<K, T>, makeTexture: (K, I) -> T)
      requires cache.Valid()
      modifies this, cache
      ensures cache.Valid()
      ensures queue == [] && loadingPaths == old(loadingPaths)
      ensures cache.maxCacheSize == old(cache.maxCacheSize)
      ensures (cache.textures, cache.accessOrder)
              == InsertAll(old(cache.textures), old(cache.accessOrder), cache.maxCacheSize, Textured(old(queue), makeTexture))
    {
      while queue != []
        invariant cache.Valid()
        invariant cache.maxCacheSize == old(cache.maxCacheSize) && loadingPaths == old(loadingPaths)
        invariant InsertAll(cache.textures, cache.accessOrder, cache.maxCacheSize, Textured(queue, makeTexture))
                  == InsertAll(old(cache.textures), old(cache.accessOrder), cache.maxCacheSize, Textured(old(queue), makeTexture))
        decreases |queue|
      {
        var (path, image) := queue[0];
        assert Textured(queue, makeTexture)[1..] == Textured(queue[1..], makeTexture);
        queue := queue[1..];
        cache.Insert(path, makeTexture(path, image));
      }
    }
  }
}
