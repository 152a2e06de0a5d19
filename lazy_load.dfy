/**
 * Lazy loading of the gallery's thumbnails. One `IntersectionObserver` is
 * created at most once. Every rendered thumbnail is an `<img>` that keeps its
 * real address in `data-src` until the observer reports it on screen. The
 * observer then copies the address into `src`, adds the class "loaded" and
 * stops watching it. The browser's `load` event hides the placeholder; its
 * `error` event turns the placeholder into a cross.
 */
module LazyLoad {
  import opened Wrappers

  /** What the placeholder beside a thumbnail shows. */
  datatype Placeholder = Camera | Hidden | Broken

  /** One `<img>`: its `data-src`, its `src` once assigned, whether it has the class "loaded", and its placeholder. */
  datatype Thumbnail = Thumbnail(dataSrc: string, src: Option<string>, loaded: bool, placeholder: Placeholder)

  /** The lifecycle of a thumbnail: waiting for the observer, requested from the server, shown, or failed. */
  datatype Phase = Pending | Requested | Shown | Failed

  function PhaseOf(t: Thumbnail): Phase
  {
    if t.src.None? then Pending
    else match t.placeholder
      case Camera => Requested
      case Hidden => Shown
      case Broken => Failed
  }

  /** A thumbnail as it is created by the render loop: nothing requested yet. */
  function Fresh(url: string): (t: Thumbnail)
    ensures PhaseOf(t) == Pending && t.dataSrc == url && !t.loaded
  {
    Thumbnail(url, None, false, Camera)
  }

  /** One entry of an observer callback: which thumbnail, and whether it is on screen. */
  datatype Entry = Entry(target: nat, isIntersecting: bool)

  /** Some entry of the batch reports `id` on screen. */
  predicate Reported(entries: seq<Entry>, id: nat)
  {
    exists k :: 0 <= k < |entries| && entries[k] == Entry(id, true)
  }

  /** The `data-src` of each of `ids`, in order. */
  function SourcesOf(ids: seq<nat>, images: map<nat, Thumbnail>): (r: seq<string>)
    requires forall i :: 0 <= i < |ids| ==> ids[i] in images
    ensures |r| == |ids| && forall i :: 0 <= i < |ids| ==> r[i] == images[ids[i]].dataSrc
  {
    seq(|ids|, i requires 0 <= i < |ids| => images[ids[i]].dataSrc)
  }

  /** The observer's callback applied to a thumbnail it watches and reports on screen. */
  function Request(t: Thumbnail): (r: Thumbnail)
    ensures t.dataSrc != "" && t == Fresh(t.dataSrc) ==> PhaseOf(r) == Requested && r.src == Some(t.dataSrc) && r.loaded
    ensures t.dataSrc == "" ==> r == t
  {
    if t.dataSrc != "" then t.(src := Some(t.dataSrc), loaded := true) else t
  }

  /**
   * The callback changes a pending thumbnail exactly when its `data-src` is
   * non-empty; `HandleEntry` stops watching it under the same test.
   */
  lemma RequestChanges(t: Thumbnail)
    requires PhaseOf(t) == Pending
    ensures Request(t) != t <==> t.dataSrc != ""
  {
  }

  class LazyLoader {
    /** `imageObserver !== null`. */
    var created: bool
    /** How many observers were created; at most one. */
    ghost var observersCreated: nat
    /** Every `<img>` created so far, by identity; earlier renders' ones are detached but still exist. */
    var images: map<nat, Thumbnail>
    /** The targets the observer watches. */
    var observed: set<nat>
    /** The thumbnails in the timeline now, in document order. */
    var mounted: seq<nat>
    /** The identity the next `<img>` gets. */
    var nextId: nat

    ghost predicate Valid()
      reads this
    {
      observersCreated == (if created then 1 else 0) &&
      observed <= images.Keys && (observed != {} ==> created) &&
      (forall id :: id in images ==> id < nextId) &&
      (forall i :: 0 <= i < |mounted| ==> mounted[i] in images) &&
      (forall i, j :: 0 <= i < j < |mounted| ==> mounted[i] != mounted[j]) &&
      (forall id :: id in observed ==> PhaseOf(images[id]) == Pending) &&
      (forall id :: id in images && images[id].src.Some? ==>
        images[id].src.value == images[id].dataSrc != "" && images[id].loaded) &&
      (forall id :: id in images && images[id].src.None? ==> images[id] == Fresh(images[id].dataSrc))
    }

    /** The `data-src` of the thumbnails in the timeline, in document order. */
    function MountedSources(): seq<string>
      reads this
      requires Valid()
    {
      SourcesOf(mounted, images)
    }

    /** The page before the gallery loads: no observer, no thumbnails. */
    constructor ()
      ensures Valid() && !created && images == map[] && observed == {} && mounted == []
    {
      created := false;
      observersCreated := 0;
      images := map[];
      observed := {};
      mounted := [];
      nextId := 0;
    }

    /** `initLazyLoading`: creates the observer unless one exists; it watches nothing yet. */
    method Init()
      requires Valid()
      modifies this
      ensures Valid() && created && observersCreated == 1
      ensures observersCreated == old(observersCreated) + (if old(created) then 0 else 1)
      ensures images == old(images) && observed == old(observed) && mounted == old(mounted)
      ensures nextId == old(nextId)
    {
      if created {
        return;
      }
      created := true;
      observersCreated := observersCreated + 1;
    }

    /**
     * The thumbnails of one render: the timeline is emptied, one fresh `<img>`
     * with `data-src` = url is created per card, in order, and each is observed
     * when the observer exists (`observeImage`). Thumbnails of earlier renders
     * are left as they were.
     */
    method Mount(urls: seq<string>)
      requires Valid()
      modifies this
      ensures Valid() && MountedSources() == urls
      ensures nextId == old(nextId) + |urls| && |mounted| == |urls|
      ensures forall id :: id in images <==> id in old(images) || old(nextId) <= id < nextId
      ensures forall i :: 0 <= i < |urls| ==> mounted[i] == old(nextId) + i && mounted[i] !in old(images)
      ensures forall i :: 0 <= i < |urls| ==> images[mounted[i]] == Fresh(urls[i])
      ensures forall id :: id in old(images) ==> images[id] == old(images)[id]
      ensures forall id :: id in observed <==> id in old(observed) || (created && old(nextId) <= id < nextId)
      ensures created == old(created) && observersCreated == old(observersCreated)
    {
      var ids := CreateImages(urls);
      mounted := ids;
    }

    /** The render loop's `<img>` elements, one per url, in order; the timeline is not touched. */
    method CreateImages(urls: seq<string>) returns (ids: seq<nat>)
      requires Valid()
      modifies this
      ensures Valid() && nextId == old(nextId) + |urls| && |ids| == |urls|
      ensures forall id :: id in images <==> id in old(images) || old(nextId) <= id < nextId
      ensures forall i :: 0 <= i < |urls| ==> ids[i] == old(nextId) + i && ids[i] !in old(images)
      ensures forall i :: 0 <= i < |urls| ==> images[ids[i]] == Fresh(urls[i])
      ensures forall id :: id in old(images) ==> images[id] == old(images)[id]
      ensures forall id :: id in observed <==> id in old(observed) || (created && old(nextId) <= id < nextId)
      ensures mounted == old(mounted) && created == old(created) && observersCreated == old(observersCreated)
    {
      ids := [];
      ghost var base := nextId;
      for i := 0 to |urls|
        invariant Valid()
        invariant |ids| == i && nextId == base + i
        invariant forall k :: 0 <= k < i ==> ids[k] == base + k
        invariant forall id :: id in images <==> id in old(images) || base <= id < nextId
        invariant forall id :: id in images ==> images[id] == if id in old(images) then old(images)[id] else Fresh(urls[id - base])
        invariant forall id :: id in observed <==> id in old(observed) || (created && base <= id < nextId)
        invariant created == old(created) && observersCreated == old(observersCreated)
        invariant mounted == old(mounted)
      {
        var id := CreateImage(urls[i]);
        ids := ids + [id];
      }
    }

    /** One `<img>` of the render loop: created with its `data-src`, then `observeImage`. */
    method CreateImage(url: string) returns (id: nat)
      requires Valid()
      modifies this
      ensures Valid() && id == old(nextId) && nextId == id + 1 && id !in old(images)
      ensures images == old(images)[id := Fresh(url)]
      ensures observed == old(observed) + (if created then {id} else {})
      ensures mounted == old(mounted) && created == old(created) && observersCreated == old(observersCreated)
    {
      id := nextId;
      images := images[id := Fresh(url)];
      if created {
        observed := observed + {id};
      }
      nextId := nextId + 1;
    }

    /**
     * The observer callback on one batch of entries: each thumbnail reported on
     * screen that is still watched and has a non-empty `data-src` gets its
     * `src`, the class "loaded", and is no longer watched.
     */
    method OnIntersection(entries: seq<Entry>)
      requires Valid()
      modifies this
      ensures Valid()
      ensures images.Keys == old(images).Keys
      ensures forall id :: id in images ==>
        images[id] == if id in old(observed) && Reported(entries, id) then Request(old(images)[id]) else old(images)[id]
      ensures observed == set id | id in old(observed) && !(Reported(entries, id) && old(images)[id].dataSrc != "")
      ensures mounted == old(mounted) && created == old(created) && nextId == old(nextId)
      ensures observersCreated == old(observersCreated) && MountedSources() == old(MountedSources())
    {
      for k := 0 to |entries|
        invariant Valid()
        invariant images == AfterBatch(old(images), old(observed), entries[..k])
        invariant observed == StillWatched(old(images), old(observed), entries[..k])
        invariant mounted == old(mounted) && created == old(created) && nextId == old(nextId)
        invariant observersCreated == old(observersCreated)
      {
        BatchStep(old(images), old(observed), entries, k);
        HandleEntry(entries[k]);
      }
      assert entries[..|entries|] == entries;
      AfterBatchSources(old(images), old(observed), entries, mounted);
    }

    /** The body of the callback's `forEach`, for one entry. */
    method HandleEntry(entry: Entry)
      requires Valid()
      modifies this
      ensures Valid()
      ensures if entry.isIntersecting && entry.target in old(observed) && old(images)[entry.target].dataSrc != "" then
          images == old(images)[entry.target := Request(old(images)[entry.target])] &&
          observed == old(observed) - {entry.target}
        else images == old(images) && observed == old(observed)
      ensures mounted == old(mounted) && created == old(created) && nextId == old(nextId)
      ensures observersCreated == old(observersCreated)
    {
      if entry.isIntersecting && entry.target in observed {
        var t := images[entry.target];
        if t.dataSrc != "" {
          images := images[entry.target := Request(t)];
          observed := observed - {entry.target};
        }
      }
    }

    /** The `load` event of a requested thumbnail: the placeholder is hidden and the class "loaded" is set. */
    method OnLoad(id: nat)
      requires Valid() && id in images && PhaseOf(images[id]) == Requested
      modifies this
      ensures Valid() && id in images && PhaseOf(images[id]) == Shown
      ensures images == old(images)[id := old(images)[id].(placeholder := Hidden, loaded := true)]
      ensures observed == old(observed) && mounted == old(mounted) && created == old(created)
      ensures nextId == old(nextId) && observersCreated == old(observersCreated)
    {
      images := images[id := images[id].(placeholder := Hidden, loaded := true)];
    }

    /** The `error` event of a requested thumbnail: only its placeholder changes, to the cross. */
    method OnError(id: nat)
      requires Valid() && id in images && PhaseOf(images[id]) == Requested
      modifies this
      ensures Valid() && id in images && PhaseOf(images[id]) == Failed
      ensures images == old(images)[id := old(images)[id].(placeholder := Broken)]
      ensures observed == old(observed) && mounted == old(mounted) && created == old(created)
      ensures nextId == old(nextId) && observersCreated == old(observersCreated)
    {
      images := images[id := images[id].(placeholder := Broken)];
    }
  }

  /** The thumbnails after a batch: those watched and reported on screen have been requested. */
  ghost function AfterBatch(images: map<nat, Thumbnail>, observed: set<nat>, entries: seq<Entry>): map<nat, Thumbnail>
  {
    map id | id in images :: if id in observed && Reported(entries, id) then Request(images[id]) else images[id]
  }

  /** The targets still watched after a batch: those not reported on screen, or with an empty `data-src`. */
  ghost function StillWatched(images: map<nat, Thumbnail>, observed: set<nat>, entries: seq<Entry>): set<nat>
  {
    set id | id in observed && !(Reported(entries, id) && id in images && images[id].dataSrc != "")
  }

  /** A batch changes no thumbnail's `data-src`. */
  lemma AfterBatchSources(images: map<nat, Thumbnail>, observed: set<nat>, entries: seq<Entry>, ids: seq<nat>)
    requires forall i :: 0 <= i < |ids| ==> ids[i] in images
    ensures SourcesOf(ids, AfterBatch(images, observed, entries)) == SourcesOf(ids, images)
  {
  }

  /** Handling entry `k` after the entries before it gives the state after the entries up to `k`. */
  lemma BatchStep(images: map<nat, Thumbnail>, observed: set<nat>, entries: seq<Entry>, k: nat)
    requires k < |entries| && observed <= images.Keys
    ensures var before, watched := AfterBatch(images, observed, entries[..k]), StillWatched(images, observed, entries[..k]);
      var e := entries[k];
      e.target in watched ==> e.target in before && before[e.target].dataSrc == images[e.target].dataSrc
    ensures var before, watched := AfterBatch(images, observed, entries[..k]), StillWatched(images, observed, entries[..k]);
      var e := entries[k];
      if e.isIntersecting && e.target in watched && images[e.target].dataSrc != "" then
        before[e.target := Request(before[e.target])] == AfterBatch(images, observed, entries[..k + 1]) &&
        watched - {e.target} == StillWatched(images, observed, entries[..k + 1])
      else
        before == AfterBatch(images, observed, entries[..k + 1]) &&
        watched == StillWatched(images, observed, entries[..k + 1])
  {
    ReportedStep(entries, k);
  }

  /** Extending a batch by one entry reports exactly that entry's target in addition. */
  lemma ReportedStep(entries: seq<Entry>, k: nat)
    requires k < |entries|
    ensures forall id :: Reported(entries[..k + 1], id) <==> Reported(entries[..k], id) || entries[k] == Entry(id, true)
  {
    forall id ensures Reported(entries[..k + 1], id) <==> Reported(entries[..k], id) || entries[k] == Entry(id, true) {
      if Reported(entries[..k + 1], id) {
        var j :| 0 <= j < k + 1 && entries[..k + 1][j] == Entry(id, true);
        if j < k {
          assert entries[..k][j] == Entry(id, true);
        }
      }
      if Reported(entries[..k], id) {
        var j :| 0 <= j < k && entries[..k][j] == Entry(id, true);
        assert entries[..k + 1][j] == Entry(id, true);
      }
      if entries[k] == Entry(id, true) {
        assert entries[..k + 1][k] == Entry(id, true);
      }
    }
  }

}
