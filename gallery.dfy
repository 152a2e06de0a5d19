/**
 * The gallery page's state and its event handlers: loading the manifest, the
 * year/month/search filters, expanding and collapsing years, the lightbox and
 * its keyboard and backdrop handling. Rendering goes through `Timeline`, and
 * the thumbnails of each render through the page's `LazyLoader`.
 */
module GalleryEngine {
  import opened Wrappers
  import opened Text
  import opened Media
  import opened Timeline
  import opened LazyLoad

  /** The loading panel, the content after a successful load, or the failure message. */
  datatype Status = Loading | Ready | LoadFailed

  // ---------------------------------------------------------------------------
  // Pure parts: the filter, the statistics, the options, the index wrap-around
  // ---------------------------------------------------------------------------

  /**
   * The test `filterGallery` applies to one item. `search` is the search box
   * already lower-cased; an empty control does not filter.
   */
  predicate Keep(year: string, month: string, search: string, img: MediaItem)
  {
    (year == "" || img.year == year) &&
    (month == "" || img.month == month) &&
    (search == "" || Includes(Lower(img.filename), search))
  }

  /** The items `filterGallery` keeps, in their order. */
  function Matching(all: seq<MediaItem>, year: string, month: string, search: string): seq<MediaItem>
  {
    Filter(all, (img: MediaItem) => Keep(year, month, search, img))
  }

  /** An item is visible exactly when it is loaded and passes all three tests. */
  lemma MatchingMember(all: seq<MediaItem>, year: string, month: string, search: string, x: MediaItem)
    ensures x in Matching(all, year, month, search) <==> x in all && Keep(year, month, search, x)
  {
    FilterMember(all, (img: MediaItem) => Keep(year, month, search, img), x);
  }

  /** With every control empty, everything is visible, in the loaded order. */
  lemma MatchingNoFilter(all: seq<MediaItem>)
    ensures Matching(all, "", "", "") == all
  {
    FilterAll(all, (img: MediaItem) => Keep("", "", "", img));
  }

  /** A year alone shows exactly that year's items, as the timeline groups them. */
  lemma MatchingYearOnly(all: seq<MediaItem>, year: string)
    requires year != ""
    ensures Matching(all, year, "", "") == InYear(all, year)
  {
    WithKeyAsFilter(all, YearOf, year, (img: MediaItem) => Keep(year, "", "", img));
  }

  lemma WithKeyAsFilter(s: seq<MediaItem>, key: MediaItem -> string, k: string, p: MediaItem -> bool)
    requires forall x :: p(x) == (key(x) == k)
    ensures Filter(s, p) == WithKey(s, key, k)
  {
    FilterEquiv(s, p, (x: MediaItem) => key(x) == k);
  }

  /** Filtering a date-descending list leaves it date-descending. */
  lemma MatchingSorted(all: seq<MediaItem>, year: string, month: string, search: string)
    requires SortedByDate(all)
    ensures SortedByDate(Matching(all, year, month, search))
  {
    FilterSorted(all, (img: MediaItem) => Keep(year, month, search, img));
  }

  /** Choosing a month never shows more of an item than the year and search alone. */
  lemma MatchingMonthNarrows(all: seq<MediaItem>, year: string, month: string, search: string)
    ensures multiset(Matching(all, year, month, search)) <= multiset(Matching(all, year, "", search))
  {
    forall x ensures multiset(Matching(all, year, month, search))[x] <= multiset(Matching(all, year, "", search))[x] {
      FilterCount(all, (img: MediaItem) => Keep(year, month, search, img), x);
      FilterCount(all, (img: MediaItem) => Keep(year, "", search, img), x);
    }
  }

  /** The key `${img.year}-${img.month}` counted by the month statistic. */
  function YearMonthOf(img: MediaItem): string
  {
    img.year + "-" + img.month
  }

  /** A statistic counts at most one key per item, and at least one key when there are items. */
  lemma {:induction false} DistinctBounds(all: seq<MediaItem>, key: MediaItem -> string)
    ensures |KeysOf(all, key)| <= |all|
    ensures all != [] ==> |KeysOf(all, key)| >= 1
    decreases |all|
  {
    if all != [] {
      var init, last := all[..|all| - 1], all[|all| - 1];
      assert all == init + [last];
      DistinctBounds(init, key);
      KeysOfAppend(init, last, key);
    }
  }

  /** `[...new Set(all.map(key))].length`. */
  method CountDistinct(all: seq<MediaItem>, key: MediaItem -> string) returns (n: nat)
    ensures n == |KeysOf(all, key)|
  {
    var seen: set<string> := {};
    for i := 0 to |all|
      invariant seen == KeysOf(all[..i], key)
    {
      KeysOfAppend(all[..i], all[i], key);
      assert all[..i + 1] == all[..i] + [all[i]];
      seen := seen + {key(all[i])};
    }
    assert all[..|all|] == all;
    n := |seen|;
  }

  /** The latest year of the loaded items, scanning them in order: the year `discoverImages` expands. */
  function MaxYear(all: seq<MediaItem>): Option<string>
    decreases |all|
  {
    if all == [] then None
    else
      var y := all[|all| - 1].year;
      match MaxYear(all[..|all| - 1])
      case None => Some(y)
      case Some(m) => if LexLe(y, m) then Some(m) else Some(y)
  }

  /** The years an optional year stands for. */
  function YearSet(o: Option<string>): set<string>
  {
    match o
    case None => {}
    case Some(y) => {y}
  }

  /** There is a latest year exactly when something is loaded; it is a loaded year and no loaded year comes after it. */
  lemma {:induction false} MaxYearCorrect(all: seq<MediaItem>)
    ensures MaxYear(all).None? <==> all == []
    ensures MaxYear(all).Some? ==>
      MaxYear(all).value in KeysOf(all, YearOf) &&
      forall z :: z in KeysOf(all, YearOf) ==> LexLe(z, MaxYear(all).value)
    decreases |all|
  {
    if all != [] {
      var init, x := all[..|all| - 1], all[|all| - 1];
      assert all == init + [x];
      MaxYearCorrect(init);
      KeysOfAppend(init, x, YearOf);
      var r := MaxYear(all).value;
      match MaxYear(init)
      case None =>
        LexLeRefl(x.year);
      case Some(m) =>
        LexLeTotal(x.year, m);
        LexLeRefl(r);
        forall z | z in KeysOf(init, YearOf) ensures LexLe(z, r) {
          if r != m {
            LexLeTrans(z, m, r);
          }
        }
    }
  }

  /** The first of the newest-first years is the latest year, and there is none exactly when nothing is loaded. */
  lemma NewestFirstHead(all: seq<MediaItem>, years: seq<string>)
    requires years == NewestFirst(KeysOf(all, YearOf))
    ensures |years| == 0 <==> all == []
    ensures |years| > 0 ==> MaxYear(all) == Some(years[0])
  {
    MaxYearCorrect(all);
    if all != [] {
      assert all[0] in all;
      assert all[0].year in KeysOf(all, YearOf);
    }
    if |years| > 0 {
      var m := MaxYear(all).value;
      var j :| 0 <= j < |years| && years[j] == m;
    }
  }

  /** The month options for a selected year: its distinct months, ascending; none for "all years". */
  ghost function MonthOptions(all: seq<MediaItem>, year: string): seq<string>
  {
    if year == "" then [] else SortedKeys(KeysOf(InYear(all, year), MonthOf))
  }

  /** The options list each month of the year once, in ascending order, and nothing else. */
  lemma MonthOptionsCorrect(all: seq<MediaItem>, year: string)
    requires year != ""
    ensures Ascending(MonthOptions(all, year))
    ensures forall m :: m in MonthOptions(all, year) <==> exists x :: x in all && x.year == year && x.month == m
  {
    forall m ensures m in MonthOptions(all, year) <==> exists x :: x in all && x.year == year && x.month == m {
      if m in MonthOptions(all, year) {
        var x :| x in InYear(all, year) && MonthOf(x) == m;
        WithKeyMember(all, YearOf, year, x);
      }
      if exists x :: x in all && x.year == year && x.month == m {
        var x :| x in all && x.year == year && x.month == m;
        WithKeyMember(all, YearOf, year, x);
        assert MonthOf(x) in KeysOf(InYear(all, year), MonthOf);
      }
    }
  }

  /** `currentIndex` after `navigateImage` added the direction: below 0 wraps to the last item, past the end to the first. */
  function Wrap(c: int, n: nat): int
  {
    if c < 0 then n - 1 else if c >= n then 0 else c
  }

  /** With items, the index always lands on one of them; without, it lands on none. */
  lemma WrapRange(c: int, n: nat)
    ensures n > 0 ==> 0 <= Wrap(c, n) < n
    ensures n == 0 ==> Wrap(c, n) == (if c < 0 then -1 else 0)
  {
  }

  /** Stepping from an item: next and previous go round the list, and a stale index past the end restarts at 0. */
  lemma WrapSteps(i: int, n: nat)
    ensures 0 <= i < n ==> Wrap(i + 1, n) == (i + 1) % n && Wrap(i - 1, n) == (i - 1 + n) % n
    ensures n <= i ==> Wrap(i + 1, n) == 0
  {
  }

  /** Next then previous, or previous then next, returns to the same item. */
  lemma WrapInverse(i: int, n: nat)
    requires 0 <= i < n
    ensures Wrap(Wrap(i + 1, n) - 1, n) == i && Wrap(Wrap(i - 1, n) + 1, n) == i
  {
  }

  /** `expandedYears` after `toggleYear(y)`. */
  function Toggled(s: set<string>, y: string): set<string>
  {
    if y in s then s - {y} else s + {y}
  }

  /** Toggling flips `y` alone, and toggling twice restores the set. */
  lemma ToggledFlipsOnly(s: set<string>, y: string)
    ensures forall z :: z in Toggled(s, y) <==> (if z == y then z !in s else z in s)
    ensures Toggled(Toggled(s, y), y) == s
  {
  }

  /**
   * What is on the page agrees with the state: no render yet and no thumbnails,
   * or the timeline of the visible items and expanded years, whose cards'
   * addresses are the mounted thumbnails' `data-src`.
   */
  ghost predicate Drawn(view: Option<View>, visible: seq<MediaItem>, expanded: set<string>, sources: seq<string>, mounted: seq<nat>)
  {
    (view.Some? ==> view.value == TimelineOf(visible, expanded) && sources == CardUrls(view.value)) &&
    (view.None? ==> mounted == [])
  }

  // ---------------------------------------------------------------------------
  // The page
  // ---------------------------------------------------------------------------

  class Gallery {
    /** The manifest, date descending. */
    var allImages: seq<MediaItem>
    /** The items passing the filters, in manifest order. */
    var visibleImages: seq<MediaItem>
    /** The lightbox's position in `visibleImages`; stale after a filter change. */
    var currentIndex: int
    /** The years whose months are shown. */
    var expandedYears: set<string>

    var status: Status
    /** The three statistics: items, distinct years, distinct year-months. */
    var totalCount: nat
    var yearCount: nat
    var monthCount: nat

    /** The year options after "all years", and the selected year ("" for all). */
    var yearOptions: seq<string>
    var yearFilter: string
    /** The month options after "all months", and the selected month ("" for all). */
    var monthOptions: seq<string>
    var monthFilter: string
    /** The search box, as typed. */
    var searchInput: string

    /** The timeline drawn by the last render; none before the first. */
    var view: Option<View>
    /** Whether the lightbox has the class "active", and the image it shows. */
    var lightboxActive: bool
    var lightboxItem: Option<MediaItem>

    /** The thumbnails and their observer. */
    const loader: LazyLoader

    /** The drawn timeline is the one for the visible items and expanded years, and its thumbnails are the mounted ones. */
    ghost predicate Valid()
      reads this, loader
    {
      loader.Valid() && Drawn(view, visibleImages, expandedYears, loader.MountedSources(), loader.mounted)
    }

    /**
     * Right after a render: each thumbnail in the timeline is a fresh `<img>`
     * for its card (nothing requested yet), watched exactly when the observer exists.
     */
    ghost predicate FreshThumbnails()
      reads this, loader
    {
      var urls := CardUrls(TimelineOf(visibleImages, expandedYears));
      |loader.mounted| == |urls| &&
      forall i :: 0 <= i < |loader.mounted| ==>
        loader.mounted[i] in loader.images && loader.images[loader.mounted[i]] == Fresh(urls[i]) &&
        (loader.mounted[i] in loader.observed <==> loader.created)
    }

    /** The page before `discoverImages` runs: empty state, empty controls. */
    constructor ()
      ensures Valid() && fresh(loader)
      ensures allImages == [] && visibleImages == [] && currentIndex == 0 && expandedYears == {}
      ensures status == Loading && view == None && !lightboxActive && !loader.created
      ensures yearFilter == "" && monthFilter == "" && searchInput == ""
      ensures yearOptions == [] && monthOptions == []
    {
      allImages := [];
      visibleImages := [];
      currentIndex := 0;
      expandedYears := {};
      status := Loading;
      totalCount, yearCount, monthCount := 0, 0, 0;
      yearOptions, yearFilter := [], "";
      monthOptions, monthFilter := [], "";
      searchInput := "";
      view := None;
      lightboxActive := false;
      lightboxItem := None;
      loader := new LazyLoader();
    }

    /** `renderGallery`: draws the timeline and mounts one fresh thumbnail per card. */
    method Render()
      requires loader.Valid()
      modifies this, loader
      ensures Valid() && view == Some(TimelineOf(visibleImages, expandedYears))
      ensures unchanged(this`allImages, this`visibleImages, this`expandedYears, this`currentIndex, this`status)
      ensures unchanged(this`totalCount, this`yearCount, this`monthCount, this`yearOptions, this`yearFilter)
      ensures unchanged(this`monthOptions, this`monthFilter, this`searchInput, this`lightboxActive, this`lightboxItem)
      ensures loader.created == old(loader.created) && FreshThumbnails()
      ensures forall i :: 0 <= i < |loader.mounted| ==> loader.mounted[i] !in old(loader.images)
      ensures forall id :: id in old(loader.images) ==>
        id in loader.images && loader.images[id] == old(loader.images)[id] &&
        (id in loader.observed <==> id in old(loader.observed))
    {
      var v := RenderGallery(visibleImages, expandedYears);
      view := Some(v);
      loader.Mount(CardUrls(v));
    }

    /** `filterGallery`: the visible items are those passing the three controls, then a render. */
    method FilterGallery()
      requires loader.Valid()
      modifies this, loader
      ensures Valid()
      ensures visibleImages == Matching(allImages, yearFilter, monthFilter, Lower(searchInput))
      ensures view == Some(TimelineOf(visibleImages, expandedYears))
      ensures allImages == old(allImages) && expandedYears == old(expandedYears) && currentIndex == old(currentIndex)
      ensures status == old(status) && totalCount == old(totalCount)
      ensures yearCount == old(yearCount) && monthCount == old(monthCount)
      ensures yearOptions == old(yearOptions) && yearFilter == old(yearFilter)
      ensures monthOptions == old(monthOptions) && monthFilter == old(monthFilter)
      ensures searchInput == old(searchInput)
      ensures lightboxActive == old(lightboxActive) && lightboxItem == old(lightboxItem)
      ensures loader.created == old(loader.created) && FreshThumbnails()
    {
      var search := Lower(searchInput);
      visibleImages := Matching(allImages, yearFilter, monthFilter, search);
      Render();
    }

    /** `updateMonthFilter`: the selected year's months become the options, the month resets to all, then `filterGallery`. */
    method UpdateMonthFilter()
      requires loader.Valid()
      modifies this, loader
      ensures Valid()
      ensures monthOptions == MonthOptions(allImages, yearFilter) && monthFilter == ""
      ensures visibleImages == Matching(allImages, yearFilter, "", Lower(searchInput))
      ensures view == Some(TimelineOf(visibleImages, expandedYears))
      ensures allImages == old(allImages) && expandedYears == old(expandedYears) && currentIndex == old(currentIndex)
      ensures status == old(status) && totalCount == old(totalCount)
      ensures yearCount == old(yearCount) && monthCount == old(monthCount)
      ensures yearOptions == old(yearOptions) && yearFilter == old(yearFilter)
      ensures searchInput == old(searchInput)
      ensures lightboxActive == old(lightboxActive) && lightboxItem == old(lightboxItem)
      ensures loader.created == old(loader.created) && FreshThumbnails()
    {
      monthFilter := "";
      if yearFilter != "" {
        monthOptions := SortKeys(KeysOf(InYear(allImages, yearFilter), MonthOf));
      } else {
        monthOptions := [];
      }
      FilterGallery();
    }

    /** The year select's `change` listener. */
    method ChangeYear(year: string)
      requires Valid()
      modifies this, loader
      ensures Valid() && yearFilter == year
      ensures monthOptions == MonthOptions(allImages, year) && monthFilter == ""
      ensures visibleImages == Matching(allImages, year, "", Lower(searchInput))
      ensures view == Some(TimelineOf(visibleImages, expandedYears))
      ensures unchanged(this`allImages, this`expandedYears, this`currentIndex, this`status, this`totalCount)
      ensures unchanged(this`yearCount, this`monthCount, this`yearOptions, this`searchInput)
      ensures unchanged(this`lightboxActive, this`lightboxItem)
      ensures loader.created == old(loader.created) && FreshThumbnails()
    {
      yearFilter := year;
      UpdateMonthFilter();
    }

    /** A new value in the month select; the page then calls `filterGallery`. */
    method SelectMonth(month: string)
      requires Valid()
      modifies this
      ensures Valid() && monthFilter == month
      ensures unchanged(this`allImages, this`visibleImages, this`currentIndex, this`expandedYears, this`status)
      ensures unchanged(this`totalCount, this`yearCount, this`monthCount, this`yearOptions, this`yearFilter)
      ensures unchanged(this`monthOptions, this`searchInput, this`view, this`lightboxActive, this`lightboxItem)
    {
      monthFilter := month;
    }

    /** New text in the search box; the page then calls `filterGallery`. */
    method TypeSearch(text: string)
      requires Valid()
      modifies this
      ensures Valid() && searchInput == text
      ensures unchanged(this`allImages, this`visibleImages, this`currentIndex, this`expandedYears, this`status)
      ensures unchanged(this`totalCount, this`yearCount, this`monthCount, this`yearOptions, this`yearFilter)
      ensures unchanged(this`monthOptions, this`monthFilter, this`view, this`lightboxActive, this`lightboxItem)
    {
      searchInput := text;
    }

    /**
     * `discoverImages` with the fetched manifest, or `None` when the request or
     * its JSON failed: then only the failure is shown.
     */
    method Load(manifest: Option<seq<MediaItem>>)
      requires Valid()
      modifies this, loader
      ensures Valid()
      ensures manifest.None? ==>
        status == LoadFailed && unchanged(loader) &&
        unchanged(this`allImages, this`visibleImages, this`expandedYears, this`totalCount, this`yearCount) &&
        unchanged(this`monthCount, this`yearOptions, this`monthOptions, this`monthFilter, this`view)
      ensures manifest.Some? ==>
        status == Ready && allImages == SortByDateDesc(manifest.value) &&
        SortedByDate(allImages) && multiset(allImages) == multiset(manifest.value)
      ensures manifest.Some? ==>
        totalCount == |allImages| && yearCount == |KeysOf(allImages, YearOf)| &&
        monthCount == |KeysOf(allImages, YearMonthOf)|
      ensures manifest.Some? ==>
        yearOptions == old(yearOptions) + NewestFirst(KeysOf(allImages, YearOf)) &&
        monthOptions == MonthOptions(allImages, yearFilter) && monthFilter == "" &&
        visibleImages == Matching(allImages, yearFilter, "", Lower(searchInput))
      ensures manifest.Some? ==>
        expandedYears == old(expandedYears) + YearSet(MaxYear(allImages)) &&
        view == Some(TimelineOf(visibleImages, expandedYears)) && loader.created && FreshThumbnails()
      ensures unchanged(this`yearFilter, this`searchInput, this`currentIndex, this`lightboxActive, this`lightboxItem)
    {
      if manifest.None? {
        status := LoadFailed;
      } else {
        Loaded(manifest.value);
      }
    }

    /**
     * The successful part of `discoverImages`: the items are sorted date
     * descending, the statistics are set, `populateFilters` runs (which
     * renders once, before the observer exists), the observer is created,
     * the newest year is expanded, and the timeline is rendered again.
     */
    method Loaded(items: seq<MediaItem>)
      requires Valid()
      modifies this, loader
      ensures Valid()
      ensures status == Ready && allImages == SortByDateDesc(items)
      ensures SortedByDate(allImages) && multiset(allImages) == multiset(items)
      ensures totalCount == |allImages| && yearCount == |KeysOf(allImages, YearOf)|
      ensures monthCount == |KeysOf(allImages, YearMonthOf)|
      ensures yearOptions == old(yearOptions) + NewestFirst(KeysOf(allImages, YearOf))
      ensures monthOptions == MonthOptions(allImages, yearFilter) && monthFilter == ""
      ensures visibleImages == Matching(allImages, yearFilter, "", Lower(searchInput))
      ensures expandedYears == old(expandedYears) + YearSet(MaxYear(allImages))
      ensures view == Some(TimelineOf(visibleImages, expandedYears)) && loader.created && FreshThumbnails()
      ensures unchanged(this`yearFilter, this`searchInput, this`currentIndex, this`lightboxActive, this`lightboxItem)
    {
      SetManifest(items);
      PopulateFilters();
      ShowTimeline();
    }

    /** The start of the successful part of `discoverImages`: the sorted manifest, the content shown, the statistics. */
    method SetManifest(items: seq<MediaItem>)
      modifies this
      ensures status == Ready && allImages == SortByDateDesc(items)
      ensures SortedByDate(allImages) && multiset(allImages) == multiset(items)
      ensures totalCount == |allImages| && yearCount == |KeysOf(allImages, YearOf)|
      ensures monthCount == |KeysOf(allImages, YearMonthOf)|
      ensures unchanged(this`visibleImages, this`currentIndex, this`expandedYears, this`view)
      ensures unchanged(this`yearOptions, this`yearFilter, this`monthOptions, this`monthFilter)
      ensures unchanged(this`searchInput, this`lightboxActive, this`lightboxItem)
    {
      var sorted := SortByDateDesc(items);
      assert SortedByDate(sorted) && multiset(sorted) == multiset(items) by {
        SortByDateDescCorrect(items);
      }
      var years := CountDistinct(sorted, YearOf);
      var months := CountDistinct(sorted, YearMonthOf);
      allImages, status, totalCount, yearCount, monthCount := sorted, Ready, |sorted|, years, months;
    }

    /** The end of `discoverImages`: `initLazyLoading`, the newest year expanded, and `renderGallery`. */
    method ShowTimeline()
      requires loader.Valid()
      modifies this, loader
      ensures Valid() && loader.created && FreshThumbnails()
      ensures expandedYears == old(expandedYears) + YearSet(MaxYear(allImages))
      ensures view == Some(TimelineOf(visibleImages, expandedYears))
      ensures unchanged(this`allImages, this`visibleImages, this`currentIndex, this`status)
      ensures unchanged(this`totalCount, this`yearCount, this`monthCount, this`yearOptions, this`yearFilter)
      ensures unchanged(this`monthOptions, this`monthFilter, this`searchInput, this`lightboxActive, this`lightboxItem)
    {
      loader.Init();
      ExpandNewest();
      Render();
    }

    /** `populateFilters`: the years, newest first, are appended to the year options; then `updateMonthFilter`. */
    method PopulateFilters()
      requires loader.Valid()
      modifies this, loader
      ensures Valid()
      ensures yearOptions == old(yearOptions) + NewestFirst(KeysOf(allImages, YearOf))
      ensures monthOptions == MonthOptions(allImages, yearFilter) && monthFilter == ""
      ensures visibleImages == Matching(allImages, yearFilter, "", Lower(searchInput))
      ensures allImages == old(allImages) && expandedYears == old(expandedYears) && currentIndex == old(currentIndex)
      ensures status == old(status) && totalCount == old(totalCount)
      ensures yearCount == old(yearCount) && monthCount == old(monthCount)
      ensures view == Some(TimelineOf(visibleImages, expandedYears))
      ensures yearFilter == old(yearFilter) && searchInput == old(searchInput)
      ensures lightboxActive == old(lightboxActive) && lightboxItem == old(lightboxItem)
      ensures loader.created == old(loader.created) && FreshThumbnails()
    {
      var years := NewestFirstKeys(KeysOf(allImages, YearOf));
      yearOptions := yearOptions + years;
      UpdateMonthFilter();
    }

    /** "Expand only the newest year by default": adds the newest loaded year, if any. */
    method ExpandNewest()
      modifies this
      ensures expandedYears == old(expandedYears) + YearSet(MaxYear(allImages))
      ensures unchanged(this`allImages, this`visibleImages, this`currentIndex, this`status, this`view)
      ensures unchanged(this`totalCount, this`yearCount, this`monthCount, this`yearOptions, this`yearFilter)
      ensures unchanged(this`monthOptions, this`monthFilter, this`searchInput, this`lightboxActive, this`lightboxItem)
    {
      var years := NewestFirstKeys(KeysOf(allImages, YearOf));
      NewestFirstHead(allImages, years);
      if |years| > 0 {
        expandedYears := expandedYears + {years[0]};
      }
    }

    /** `toggleYear`: flips the year's expansion and renders. */
    method ToggleYear(year: string)
      requires Valid()
      modifies this, loader
      ensures Valid() && expandedYears == Toggled(old(expandedYears), year)
      ensures view == Some(TimelineOf(visibleImages, expandedYears))
      ensures unchanged(this`allImages, this`visibleImages, this`currentIndex, this`status, this`totalCount)
      ensures unchanged(this`yearCount, this`monthCount, this`yearOptions, this`yearFilter, this`monthOptions)
      ensures unchanged(this`monthFilter, this`searchInput, this`lightboxActive, this`lightboxItem)
      ensures loader.created == old(loader.created) && FreshThumbnails()
    {
      if year in expandedYears {
        expandedYears := expandedYears - {year};
      } else {
        expandedYears := expandedYears + {year};
      }
      Render();
    }

    /** `openLightbox` on the card of `visibleImages[i]`. */
    method OpenLightbox(i: nat)
      requires Valid() && i < |visibleImages|
      modifies this
      ensures Valid()
      ensures unchanged(this`allImages, this`visibleImages, this`expandedYears, this`status, this`totalCount)
      ensures unchanged(this`yearCount, this`monthCount, this`yearOptions, this`yearFilter, this`monthOptions)
      ensures unchanged(this`monthFilter, this`searchInput, this`view)
      ensures currentIndex == i && lightboxActive && lightboxItem == Some(visibleImages[i])
    {
      lightboxItem, currentIndex, lightboxActive := Some(visibleImages[i]), i, true;
      assert loader.Valid() && Drawn(view, visibleImages, expandedYears, loader.MountedSources(), loader.mounted);
    }

    /** `closeLightbox`. */
    method CloseLightbox()
      requires Valid()
      modifies this
      ensures Valid() && !lightboxActive && unchanged(this`currentIndex, this`lightboxItem)
      ensures unchanged(this`allImages, this`visibleImages, this`expandedYears, this`status, this`totalCount)
      ensures unchanged(this`yearCount, this`monthCount, this`yearOptions, this`yearFilter, this`monthOptions)
      ensures unchanged(this`monthFilter, this`searchInput, this`view)
    {
      lightboxActive := false;
    }

    /** `navigateImage`: moves by `direction`, wrapping at both ends, and shows the image there if there is one. */
    method NavigateImage(direction: int)
      requires Valid()
      modifies this
      ensures Valid() && currentIndex == Wrap(old(currentIndex) + direction, |visibleImages|)
      ensures unchanged(this`allImages, this`visibleImages, this`expandedYears, this`status, this`totalCount)
      ensures unchanged(this`yearCount, this`monthCount, this`yearOptions, this`yearFilter, this`monthOptions)
      ensures unchanged(this`monthFilter, this`searchInput, this`view)
      ensures |visibleImages| > 0 ==> lightboxActive && lightboxItem == Some(visibleImages[currentIndex])
      ensures |visibleImages| == 0 ==> lightboxActive == old(lightboxActive) && lightboxItem == old(lightboxItem)
    {
      currentIndex := currentIndex + direction;
      if currentIndex < 0 {
        currentIndex := |visibleImages| - 1;
      }
      if currentIndex >= |visibleImages| {
        currentIndex := 0;
      }
      if 0 <= currentIndex < |visibleImages| {
        OpenLightbox(currentIndex);
      }
    }

    /** The `keydown` listener: Escape closes, the arrows step, and only while the lightbox is active. */
    method KeyDown(key: string)
      requires Valid()
      modifies this
      ensures Valid()
      ensures !old(lightboxActive) ==> unchanged(this)
      ensures old(lightboxActive) && key == "Escape" ==>
        !lightboxActive && unchanged(this`currentIndex, this`lightboxItem)
      ensures old(lightboxActive) && key == "ArrowLeft" ==> currentIndex == Wrap(old(currentIndex) - 1, |visibleImages|)
      ensures old(lightboxActive) && key == "ArrowRight" ==> currentIndex == Wrap(old(currentIndex) + 1, |visibleImages|)
      ensures old(lightboxActive) && (key == "ArrowLeft" || key == "ArrowRight") ==>
        lightboxActive &&
        (|visibleImages| > 0 ==> lightboxItem == Some(visibleImages[currentIndex])) &&
        (|visibleImages| == 0 ==> lightboxItem == old(lightboxItem))
      ensures old(lightboxActive) && key != "Escape" && key != "ArrowLeft" && key != "ArrowRight" ==> unchanged(this)
      ensures unchanged(this`allImages, this`visibleImages, this`expandedYears, this`status, this`totalCount)
      ensures unchanged(this`yearCount, this`monthCount, this`yearOptions, this`yearFilter, this`monthOptions)
      ensures unchanged(this`monthFilter, this`searchInput, this`view)
    {
      if lightboxActive {
        if key == "Escape" {
          CloseLightbox();
        }
        if key == "ArrowLeft" {
          NavigateImage(-1);
        }
        if key == "ArrowRight" {
          NavigateImage(1);
        }
      }
    }

    /** A click on the lightbox: only a click on the backdrop itself closes it. */
    method LightboxClick(onBackdrop: bool)
      requires Valid()
      modifies this
      ensures Valid() && lightboxActive == (old(lightboxActive) && !onBackdrop)
      ensures unchanged(this`currentIndex, this`lightboxItem)
      ensures unchanged(this`allImages, this`visibleImages, this`expandedYears, this`status, this`totalCount)
      ensures unchanged(this`yearCount, this`monthCount, this`yearOptions, this`yearFilter, this`monthOptions)
      ensures unchanged(this`monthFilter, this`searchInput, this`view)
    {
      if onBackdrop {
        CloseLightbox();
      }
    }

    /** The observer's callback on the thumbnails; the timeline and its thumbnails stay in step. */
    method ObserverReports(entries: seq<Entry>)
      requires Valid()
      modifies loader
      ensures Valid() && loader.images.Keys == old(loader.images).Keys
      ensures forall id :: id in loader.images ==>
        loader.images[id] ==
          if id in old(loader.observed) && Reported(entries, id) then Request(old(loader.images)[id]) else old(loader.images)[id]
    {
      loader.OnIntersection(entries);
    }
  }

}
