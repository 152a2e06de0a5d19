/**
 * What `renderGallery` draws, apart from the DOM: the visible items grouped by
 * year and, for the expanded years, by month. Years and months appear newest
 * first, each group keeps the items in their visible order, and each year
 * carries the number of its items.
 */
module Timeline {
  import opened Wrappers
  import opened Text
  import opened Media

  /** One month of an expanded year: its key as stored in the items, and its cards. */
  datatype MonthGroup = MonthGroup(month: string, items: seq<MediaItem>)

  /** One year: its key, the number of its items, whether it is expanded, and its months (none when collapsed). */
  datatype YearGroup = YearGroup(year: string, count: nat, expanded: bool, months: seq<MonthGroup>)

  /** The timeline: the "no matching images" message, or the year groups in display order. */
  datatype View = NoResults | Timeline(years: seq<YearGroup>)

  /** `monthNames`: the twelve two-digit month keys and their Chinese names. */
  const MonthNames: map<string, string> := map[
    "01" := "一月", "02" := "二月", "03" := "三月", "04" := "四月",
    "05" := "五月", "06" := "六月", "07" := "七月", "08" := "八月",
    "09" := "九月", "10" := "十月", "11" := "十一月", "12" := "十二月"]

  /** The heading of a month group: `monthNames[month] || `${month}月``. */
  function MonthLabel(month: string): string
  {
    if month in MonthNames then MonthNames[month] else month + "月"
  }

  /** `monthNames` has exactly the twelve padded month keys. */
  lemma MonthNamesKeys()
    ensures MonthNames.Keys == {"01", "02", "03", "04", "05", "06", "07", "08", "09", "10", "11", "12"}
  {
  }

  /**
   * Each padded month key has a name, and each name is non-empty,
   * so `||` picks it; every other key, such as an unpadded "3", falls back to the
   * key followed by 月.
   */
  lemma MonthLabelCases()
    ensures forall m :: m in MonthNames ==> MonthNames[m] != "" && MonthLabel(m) == MonthNames[m]
    ensures forall m :: m !in MonthNames ==> MonthLabel(m) == m + "月"
    ensures MonthLabel("01") == "一月" && MonthLabel("10") == "十月" && MonthLabel("12") == "十二月"
    ensures MonthLabel("3") == "3月" && MonthLabel("13") == "13月"
  {
  }

  // ---------------------------------------------------------------------------
  // Items by key
  // ---------------------------------------------------------------------------

  function YearOf(x: MediaItem): string { x.year }

  function MonthOf(x: MediaItem): string { x.month }

  /** The items of `s` whose key is `k`, in order. */
  function WithKey(s: seq<MediaItem>, key: MediaItem -> string, k: string): seq<MediaItem>
  {
    Filter(s, (x: MediaItem) => key(x) == k)
  }

  /** The distinct keys of the items of `s`. */
  function KeysOf(s: seq<MediaItem>, key: MediaItem -> string): set<string>
  {
    set x | x in s :: key(x)
  }

  function InYear(s: seq<MediaItem>, y: string): seq<MediaItem> { WithKey(s, YearOf, y) }

  function InMonth(s: seq<MediaItem>, m: string): seq<MediaItem> { WithKey(s, MonthOf, m) }

  /** Appending an item adds it to the group of its own key and to no other. */
  lemma WithKeyAppend(s: seq<MediaItem>, x: MediaItem, key: MediaItem -> string, k: string)
    ensures WithKey(s + [x], key, k) == WithKey(s, key, k) + (if key(x) == k then [x] else [])
  {
    FilterAppend(s, [x], (y: MediaItem) => key(y) == k);
  }

  lemma KeysOfAppend(s: seq<MediaItem>, x: MediaItem, key: MediaItem -> string)
    ensures KeysOf(s + [x], key) == KeysOf(s, key) + {key(x)}
  {
    forall k | k in KeysOf(s + [x], key) ensures k in KeysOf(s, key) + {key(x)} {
      var y :| y in s + [x] && key(y) == k;
      if y != x {
        assert y in s;
      }
    }
  }

  /** A key has a non-empty group exactly when some item carries it. */
  lemma WithKeyNonEmpty(s: seq<MediaItem>, key: MediaItem -> string, k: string)
    ensures WithKey(s, key, k) != [] <==> k in KeysOf(s, key)
  {
    if k in KeysOf(s, key) {
      var x :| x in s && key(x) == k;
      FilterMember(s, (y: MediaItem) => key(y) == k, x);
    }
    if WithKey(s, key, k) != [] {
      var x := WithKey(s, key, k)[0];
      FilterMember(s, (y: MediaItem) => key(y) == k, x);
    }
  }

  /** An item is in its own key's group as often as it is in `s`, and in no other group. */
  lemma WithKeyCount(s: seq<MediaItem>, key: MediaItem -> string, k: string, x: MediaItem)
    ensures multiset(WithKey(s, key, k))[x] == if key(x) == k then multiset(s)[x] else 0
  {
    FilterCount(s, (x: MediaItem) => key(x) == k, x);
  }

  lemma WithKeyMember(s: seq<MediaItem>, key: MediaItem -> string, k: string, x: MediaItem)
    ensures x in WithKey(s, key, k) <==> x in s && key(x) == k
  {
    FilterMember(s, (x: MediaItem) => key(x) == k, x);
  }

  /** The items of year `y` and month `m`, in order. */
  function InYearMonth(s: seq<MediaItem>, y: string, m: string): seq<MediaItem>
  {
    Filter(s, (x: MediaItem) => x.year == y && x.month == m)
  }

  /** Grouping by year and then by month keeps exactly the items of that year and month, in order. */
  lemma {:induction false} InMonthOfYear(s: seq<MediaItem>, y: string, m: string)
    ensures InMonth(InYear(s, y), m) == InYearMonth(s, y, m)
    decreases |s|
  {
    if s != [] {
      var init, x := s[..|s| - 1], s[|s| - 1];
      assert s == init + [x];
      InMonthOfYear(init, y, m);
      WithKeyAppend(init, x, YearOf, y);
      if x.year == y {
        WithKeyAppend(InYear(init, y), x, MonthOf, m);
      }
      FilterAppend(init, [x], (z: MediaItem) => z.year == y && z.month == m);
      assert [x][1..] == [];
      assert InYearMonth(s, y, m) == InYearMonth(init, y, m) + (if x.year == y && x.month == m then [x] else []);
      if x.year != y {
        assert InYear(s, y) == InYear(init, y);
      }
    }
  }

  // ---------------------------------------------------------------------------
  // byYear: the dictionary year -> month -> items
  // ---------------------------------------------------------------------------

  /** `months` describes one year's items: their months, and each month's items in order. */
  ghost predicate MonthsDescribe(months: map<string, seq<MediaItem>>, items: seq<MediaItem>)
  {
    months.Keys == KeysOf(items, MonthOf) &&
    forall m :: m in months ==> months[m] == InMonth(items, m)
  }

  /** `byYear` describes `s`: its years, and for each year the months of that year's items. */
  ghost predicate Describes(byYear: map<string, map<string, seq<MediaItem>>>, s: seq<MediaItem>)
  {
    byYear.Keys == KeysOf(s, YearOf) &&
    forall y :: y in byYear ==> MonthsDescribe(byYear[y], InYear(s, y))
  }

  /** Appending `x` adds it to the items of its own year and leaves the other years alone. */
  lemma InYearAppend(s: seq<MediaItem>, x: MediaItem)
    ensures forall y :: InYear(s + [x], y) == InYear(s, y) + (if x.year == y then [x] else [])
  {
    forall y ensures InYear(s + [x], y) == InYear(s, y) + (if x.year == y then [x] else []) {
      WithKeyAppend(s, x, YearOf, y);
    }
  }

  /** A year missing from a description of `s` has no items in `s`. */
  lemma DescribesMissingYear(byYear: map<string, map<string, seq<MediaItem>>>, s: seq<MediaItem>, y: string)
    requires Describes(byYear, s) && y !in byYear
    ensures InYear(s, y) == []
  {
    WithKeyNonEmpty(s, YearOf, y);
  }

  /** Pushing `x` into the dictionary of `s` yields the dictionary of `s + [x]`. */
  lemma DescribesStep(byYear: map<string, map<string, seq<MediaItem>>>, s: seq<MediaItem>, x: MediaItem)
    requires Describes(byYear, s)
    ensures var months := if x.year in byYear then byYear[x.year] else map[];
      var items := if x.month in months then months[x.month] else [];
      Describes(byYear[x.year := months[x.month := items + [x]]], s + [x])
  {
    var months := if x.year in byYear then byYear[x.year] else map[];
    var items := if x.month in months then months[x.month] else [];
    var g := byYear[x.year := months[x.month := items + [x]]];
    var items0 := InYear(s, x.year);
    KeysOfAppend(s, x, YearOf);
    InYearAppend(s, x);
    if x.year !in byYear {
      DescribesMissingYear(byYear, s, x.year);
      assert MonthsDescribe(months, items0);
    }
    MonthsStep(months, items0, x);
    forall y | y in g ensures MonthsDescribe(g[y], InYear(s + [x], y)) {
      if y != x.year {
        assert g[y] == byYear[y] && InYear(s + [x], y) == InYear(s, y);
      }
    }
  }

  /** Pushing `x` into the month dictionary of one year's items yields that of the items followed by `x`. */
  lemma MonthsStep(months: map<string, seq<MediaItem>>, items: seq<MediaItem>, x: MediaItem)
    requires MonthsDescribe(months, items)
    ensures var prior := if x.month in months then months[x.month] else [];
      MonthsDescribe(months[x.month := prior + [x]], items + [x])
  {
    var prior := if x.month in months then months[x.month] else [];
    KeysOfAppend(items, x, MonthOf);
    forall m ensures InMonth(items + [x], m) == InMonth(items, m) + (if x.month == m then [x] else []) {
      WithKeyAppend(items, x, MonthOf, m);
    }
    if x.month !in months {
      WithKeyNonEmpty(items, MonthOf, x.month);
    }
  }

  /** The `forEach` that fills `byYear`: creates the year and month entries on first use and pushes each item. */
  method GroupByYear(visible: seq<MediaItem>) returns (byYear: map<string, map<string, seq<MediaItem>>>)
    ensures Describes(byYear, visible)
  {
    byYear := map[];
    for i := 0 to |visible|
      invariant Describes(byYear, visible[..i])
    {
      var img := visible[i];
      DescribesStep(byYear, visible[..i], img);
      assert visible[..i + 1] == visible[..i] + [img];
      var months := if img.year in byYear then byYear[img.year] else map[];
      var items := if img.month in months then months[img.month] else [];
      byYear := byYear[img.year := months[img.month := items + [img]]];
    }
    assert visible[..|visible|] == visible;
  }

  // ---------------------------------------------------------------------------
  // Counting: the groups of distinct keys split the items
  // ---------------------------------------------------------------------------

  predicate Distinct(ks: seq<string>)
  {
    forall i, j :: 0 <= i < j < |ks| ==> ks[i] != ks[j]
  }

  lemma DescendingDistinct(ks: seq<string>)
    requires Descending(ks)
    ensures Distinct(ks)
  {
    forall i, j | 0 <= i < j < |ks| ensures ks[i] != ks[j] {
      LexLeRefl(ks[i]);
    }
  }

  lemma AscendingDistinct(ks: seq<string>)
    requires Ascending(ks)
    ensures Distinct(ks)
  {
    forall i, j | 0 <= i < j < |ks| ensures ks[i] != ks[j] {
      LexLeRefl(ks[i]);
    }
  }

  /** A key occurs once in a list of distinct keys that holds it. */
  lemma {:induction false} DistinctOnce(ks: seq<string>, k: string)
    requires Distinct(ks)
    ensures multiset(ks)[k] == if k in ks then 1 else 0
    decreases |ks|
  {
    if ks != [] {
      var init := ks[..|ks| - 1];
      assert ks == init + [ks[|ks| - 1]];
      DistinctOnce(init, k);
      if k == ks[|ks| - 1] {
        assert k !in init;
      }
    }
  }

  /** The total size of the groups of the keys `ks`, taken in order. */
  function KeySizes(s: seq<MediaItem>, key: MediaItem -> string, ks: seq<string>): nat
    decreases |ks|
  {
    if ks == [] then 0 else KeySizes(s, key, ks[..|ks| - 1]) + |WithKey(s, key, ks[|ks| - 1])|
  }

  lemma {:induction false} KeySizesEmpty(key: MediaItem -> string, ks: seq<string>)
    ensures KeySizes([], key, ks) == 0
    decreases |ks|
  {
    if ks != [] {
      KeySizesEmpty(key, ks[..|ks| - 1]);
    }
  }

  /** A new item adds one to the total for each time its key is listed. */
  lemma {:induction false} KeySizesAppend(s: seq<MediaItem>, x: MediaItem, key: MediaItem -> string, ks: seq<string>)
    ensures KeySizes(s + [x], key, ks) == KeySizes(s, key, ks) + multiset(ks)[key(x)]
    decreases |ks|
  {
    if ks != [] {
      var init, last := ks[..|ks| - 1], ks[|ks| - 1];
      KeySizesAppend(s, x, key, init);
      WithKeyAppend(s, x, key, last);
      assert ks == init + [last];
    }
  }

  /** Groups over distinct keys that cover every item account for every item exactly once. */
  lemma {:induction false} PartitionSizes(s: seq<MediaItem>, key: MediaItem -> string, ks: seq<string>)
    requires Distinct(ks)
    requires forall x :: x in s ==> key(x) in ks
    ensures KeySizes(s, key, ks) == |s|
    decreases |s|
  {
    if s == [] {
      KeySizesEmpty(key, ks);
    } else {
      var init, last := s[..|s| - 1], s[|s| - 1];
      assert s == init + [last];
      PartitionSizes(init, key, ks);
      KeySizesAppend(init, last, key, ks);
      DistinctOnce(ks, key(last));
    }
  }

  /** The keys of `s`, newest (greatest) first: `Object.keys(...).sort().reverse()`. */
  ghost function NewestFirst(keys: set<string>): (r: seq<string>)
    ensures Descending(r) && Distinct(r) && forall k :: k in r <==> k in keys
  {
    ReversedAscending(SortedKeys(keys));
    DescendingDistinct(Reversed(SortedKeys(keys)));
    Reversed(SortedKeys(keys))
  }

  // ---------------------------------------------------------------------------
  // The timeline as a function of the visible items and the expanded years
  // ---------------------------------------------------------------------------

  /** The month groups of one year's items, newest month first. */
  ghost function MonthGroupsOf(items: seq<MediaItem>): seq<MonthGroup>
  {
    MonthGroupsAt(items, NewestFirst(KeysOf(items, MonthOf)))
  }

  /** One month group per key of `ms`, in that order. */
  ghost function MonthGroupsAt(items: seq<MediaItem>, ms: seq<string>): seq<MonthGroup>
  {
    seq(|ms|, j requires 0 <= j < |ms| => MonthGroup(ms[j], InMonth(items, ms[j])))
  }

  /** The group of year `y`: its item count, and its months when it is expanded. */
  ghost function YearGroupOf(visible: seq<MediaItem>, expanded: set<string>, y: string): YearGroup
  {
    var items := InYear(visible, y);
    YearGroup(y, |items|, y in expanded, if y in expanded then MonthGroupsOf(items) else [])
  }

  /** What `renderGallery` shows for the visible items and the expanded years. */
  ghost function TimelineOf(visible: seq<MediaItem>, expanded: set<string>): View
  {
    if visible == [] then NoResults
    else
      Timeline(YearGroupsAt(visible, expanded, NewestFirst(KeysOf(visible, YearOf))))
  }

  /** One year group per key of `ys`, in that order. */
  ghost function YearGroupsAt(visible: seq<MediaItem>, expanded: set<string>, ys: seq<string>): seq<YearGroup>
  {
    seq(|ys|, j requires 0 <= j < |ys| => YearGroupOf(visible, expanded, ys[j]))
  }

  // ---------------------------------------------------------------------------
  // renderGallery
  // ---------------------------------------------------------------------------

  lemma KeySizesStep(s: seq<MediaItem>, key: MediaItem -> string, ks: seq<string>, j: nat)
    requires j < |ks|
    ensures KeySizes(s, key, ks[..j + 1]) == KeySizes(s, key, ks[..j]) + |WithKey(s, key, ks[j])|
  {
    assert ks[..j + 1][..j] == ks[..j];
  }

  /** The month groups of a year, summed over its sorted month keys, hold all of its items. */
  lemma MonthSizesCover(items: seq<MediaItem>, ks: seq<string>)
    requires ks == SortedKeys(KeysOf(items, MonthOf))
    ensures KeySizes(items, MonthOf, ks) == |items|
  {
    AscendingDistinct(ks);
    forall x | x in items ensures MonthOf(x) in ks {
      assert MonthOf(x) in KeysOf(items, MonthOf);
    }
    PartitionSizes(items, MonthOf, ks);
  }

  /** `Object.values(byYear[year]).reduce((sum, imgs) => sum + imgs.length, 0)`, summed in key order. */
  method CountItems(months: map<string, seq<MediaItem>>, ghost items: seq<MediaItem>) returns (count: nat)
    requires MonthsDescribe(months, items)
    ensures count == |items|
  {
    var ks := SortKeys(months.Keys);
    count := 0;
    for j := 0 to |ks|
      invariant count == KeySizes(items, MonthOf, ks[..j])
    {
      KeySizesStep(items, MonthOf, ks, j);
      count := count + |months[ks[j]]|;
    }
    assert ks[..|ks|] == ks;
    MonthSizesCover(items, ks);
  }

  /** `Object.keys(...).sort().reverse()`. */
  method NewestFirstKeys(keys: set<string>) returns (r: seq<string>)
    ensures r == NewestFirst(keys)
  {
    var ks := SortKeys(keys);
    r := Reversed(ks);
  }

  lemma MonthGroupsAtSnoc(items: seq<MediaItem>, ms: seq<string>, j: nat)
    requires j < |ms|
    ensures MonthGroupsAt(items, ms[..j + 1]) == MonthGroupsAt(items, ms[..j]) + [MonthGroup(ms[j], InMonth(items, ms[j]))]
  {
    var a, b := MonthGroupsAt(items, ms[..j + 1]), MonthGroupsAt(items, ms[..j]);
    forall k | 0 <= k < j ensures a[k] == b[k] {
      assert ms[..j + 1][k] == ms[..j][k];
    }
  }

  /** The month sections of an expanded year, one per month of `ms`, in order. */
  method MonthSections(months: map<string, seq<MediaItem>>, ghost items: seq<MediaItem>, ms: seq<string>)
    returns (groups: seq<MonthGroup>)
    requires forall k :: 0 <= k < |ms| ==> ms[k] in months && months[ms[k]] == InMonth(items, ms[k])
    ensures groups == MonthGroupsAt(items, ms)
  {
    groups := [];
    for j := 0 to |ms|
      invariant groups == MonthGroupsAt(items, ms[..j])
    {
      var month := ms[j];
      MonthGroupsAtSnoc(items, ms, j);
      groups := groups + [MonthGroup(month, months[month])];
    }
    assert ms[..|ms|] == ms;
  }

  /** The month groups of an expanded year, in `Object.keys(...).sort().reverse()` order. */
  method MonthGroups(months: map<string, seq<MediaItem>>, ghost items: seq<MediaItem>) returns (groups: seq<MonthGroup>)
    requires MonthsDescribe(months, items)
    ensures groups == MonthGroupsOf(items)
  {
    var desc := NewestFirstKeys(months.Keys);
    groups := MonthSections(months, items, desc);
  }

  /** One year section of `renderGallery`: its count, its expanded state and, when expanded, its months. */
  method YearSection(byYear: map<string, map<string, seq<MediaItem>>>, ghost visible: seq<MediaItem>,
                     expanded: set<string>, year: string) returns (g: YearGroup)
    requires Describes(byYear, visible) && year in byYear
    ensures g == YearGroupOf(visible, expanded, year)
  {
    var count := CountItems(byYear[year], InYear(visible, year));
    var isExpanded := year in expanded;
    var months: seq<MonthGroup> := [];
    if isExpanded {
      months := MonthGroups(byYear[year], InYear(visible, year));
    }
    g := YearGroup(year, count, isExpanded, months);
  }

  lemma YearGroupsAtSnoc(visible: seq<MediaItem>, expanded: set<string>, ys: seq<string>, j: nat)
    requires j < |ys|
    ensures YearGroupsAt(visible, expanded, ys[..j + 1]) ==
      YearGroupsAt(visible, expanded, ys[..j]) + [YearGroupOf(visible, expanded, ys[j])]
  {
    var a, b := YearGroupsAt(visible, expanded, ys[..j + 1]), YearGroupsAt(visible, expanded, ys[..j]);
    forall k | 0 <= k < j ensures a[k] == b[k] {
      assert ys[..j + 1][k] == ys[..j][k];
    }
  }

  /** The year sections of `renderGallery`, one per year of `years`, in order. */
  method YearSections(byYear: map<string, map<string, seq<MediaItem>>>, ghost visible: seq<MediaItem>,
                      expanded: set<string>, years: seq<string>) returns (groups: seq<YearGroup>)
    requires Describes(byYear, visible)
    requires forall j :: 0 <= j < |years| ==> years[j] in byYear
    ensures groups == YearGroupsAt(visible, expanded, years)
  {
    groups := [];
    for j := 0 to |years|
      invariant groups == YearGroupsAt(visible, expanded, years[..j])
    {
      var g := YearSection(byYear, visible, expanded, years[j]);
      YearGroupsAtSnoc(visible, expanded, years, j);
      groups := groups + [g];
    }
    assert years[..|years|] == years;
  }

  /** `renderGallery` without the DOM: the timeline for the visible items and the expanded years. */
  method RenderGallery(visible: seq<MediaItem>, expanded: set<string>) returns (view: View)
    ensures view == TimelineOf(visible, expanded)
  {
    if |visible| == 0 {
      return NoResults;
    }
    var byYear := GroupByYear(visible);
    var years := NewestFirstKeys(byYear.Keys);
    var groups := YearSections(byYear, visible, expanded, years);
    view := Timeline(groups);
  }

  // ---------------------------------------------------------------------------
  // What the timeline promises
  // ---------------------------------------------------------------------------

  /** The sum of the year counts. */
  function YearTotal(gs: seq<YearGroup>): nat
    decreases |gs|
  {
    if gs == [] then 0 else YearTotal(gs[..|gs| - 1]) + gs[|gs| - 1].count
  }

  /** The number of cards over the month groups. */
  function MonthTotal(ms: seq<MonthGroup>): nat
    decreases |ms|
  {
    if ms == [] then 0 else MonthTotal(ms[..|ms| - 1]) + |ms[|ms| - 1].items|
  }

  lemma {:induction false} YearTotalSizes(visible: seq<MediaItem>, expanded: set<string>, ys: seq<string>)
    ensures YearTotal(YearGroupsAt(visible, expanded, ys)) == KeySizes(visible, YearOf, ys)
    decreases |ys|
  {
    if ys != [] {
      var n := |ys|;
      assert YearGroupsAt(visible, expanded, ys)[..n - 1] == YearGroupsAt(visible, expanded, ys[..n - 1]);
      YearTotalSizes(visible, expanded, ys[..n - 1]);
    }
  }

  lemma {:induction false} MonthTotalSizes(items: seq<MediaItem>, ms: seq<string>)
    ensures MonthTotal(MonthGroupsAt(items, ms)) == KeySizes(items, MonthOf, ms)
    decreases |ms|
  {
    if ms != [] {
      var n := |ms|;
      assert MonthGroupsAt(items, ms)[..n - 1] == MonthGroupsAt(items, ms[..n - 1]);
      MonthTotalSizes(items, ms[..n - 1]);
    }
  }

  /** Every item is counted in exactly one year: the counts add up to the number of visible items. */
  lemma TimelineTotal(visible: seq<MediaItem>, expanded: set<string>)
    requires visible != []
    ensures YearTotal(TimelineOf(visible, expanded).years) == |visible|
  {
    var ys := NewestFirst(KeysOf(visible, YearOf));
    YearTotalSizes(visible, expanded, ys);
    forall x | x in visible ensures YearOf(x) in ys {
      assert YearOf(x) in KeysOf(visible, YearOf);
    }
    PartitionSizes(visible, YearOf, ys);
  }

  /** Year groups over descending keys are in that order, one per key, each the group of its own year. */
  lemma YearGroupsAtShape(visible: seq<MediaItem>, expanded: set<string>, ys: seq<string>)
    requires Descending(ys)
    ensures var gs := YearGroupsAt(visible, expanded, ys);
      (forall i, j :: 0 <= i < j < |gs| ==> LexLt(gs[j].year, gs[i].year)) &&
      (forall y :: y in ys ==> HasYear(gs, y)) &&
      (forall k :: 0 <= k < |gs| ==> gs[k] == YearGroupOf(visible, expanded, gs[k].year))
  {
    var gs := YearGroupsAt(visible, expanded, ys);
    forall y | y in ys ensures HasYear(gs, y) {
      var k :| 0 <= k < |ys| && ys[k] == y;
      assert gs[k].year == y;
    }
  }

  /** The year groups over the newest-first years of the visible items. */
  lemma YearGroupsShape(visible: seq<MediaItem>, expanded: set<string>, ys: seq<string>)
    requires ys == NewestFirst(KeysOf(visible, YearOf))
    ensures var gs := YearGroupsAt(visible, expanded, ys);
      (forall i, j :: 0 <= i < j < |gs| ==> LexLt(gs[j].year, gs[i].year)) &&
      (forall x :: x in visible ==> HasYear(gs, x.year)) &&
      (forall k :: 0 <= k < |gs| ==> gs[k] == YearGroupOf(visible, expanded, gs[k].year) && gs[k].count > 0)
  {
    var gs := YearGroupsAt(visible, expanded, ys);
    YearGroupsAtShape(visible, expanded, ys);
    forall x | x in visible ensures x.year in ys {
      assert YearOf(x) in KeysOf(visible, YearOf);
    }
    forall k | 0 <= k < |gs| ensures gs[k].count > 0 {
      WithKeyNonEmpty(visible, YearOf, ys[k]);
    }
  }

  /**
   * The year sections: newest year first, one per year of the visible items,
   * each with the number of that year's items; only expanded years list months.
   */
  lemma TimelineYears(visible: seq<MediaItem>, expanded: set<string>)
    requires visible != []
    ensures TimelineOf(visible, expanded).Timeline?
    ensures var gs := TimelineOf(visible, expanded).years;
      (forall i, j :: 0 <= i < j < |gs| ==> LexLt(gs[j].year, gs[i].year)) &&
      (forall x :: x in visible ==> HasYear(gs, x.year)) &&
      (forall k :: 0 <= k < |gs| ==> gs[k].count == |InYear(visible, gs[k].year)| && gs[k].count > 0) &&
      (forall k :: 0 <= k < |gs| ==> (gs[k].expanded <==> gs[k].year in expanded) && (gs[k].expanded || gs[k].months == []))
  {
    YearGroupsShape(visible, expanded, NewestFirst(KeysOf(visible, YearOf)));
  }

  /** The month groups of year `y`: newest month first, and one for every month of the year's items. */
  lemma MonthsOrdered(visible: seq<MediaItem>, y: string)
    ensures var ms := MonthGroupsOf(InYear(visible, y));
      (forall i, j :: 0 <= i < j < |ms| ==> LexLt(ms[j].month, ms[i].month)) &&
      (forall x :: x in visible && x.year == y ==> HasMonth(ms, x.month))
  {
    var items := InYear(visible, y);
    var keys := NewestFirst(KeysOf(items, MonthOf));
    MonthGroupsAtShape(items, keys);
    forall x | x in visible && x.year == y ensures x.month in keys {
      WithKeyMember(visible, YearOf, y, x);
      assert MonthOf(x) in KeysOf(items, MonthOf);
    }
  }

  /** Each month group of year `y` holds exactly the visible items of that year and month, and at least one. */
  lemma MonthsHoldItems(visible: seq<MediaItem>, y: string)
    ensures var ms := MonthGroupsOf(InYear(visible, y));
      forall i :: 0 <= i < |ms| ==> ms[i].items != [] && ms[i].items == InYearMonth(visible, y, ms[i].month)
  {
    var items := InYear(visible, y);
    var keys := NewestFirst(KeysOf(items, MonthOf));
    var ms := MonthGroupsAt(items, keys);
    forall i | 0 <= i < |ms| ensures ms[i].items != [] && ms[i].items == InYearMonth(visible, y, ms[i].month) {
      WithKeyNonEmpty(items, MonthOf, keys[i]);
      InMonthOfYear(visible, y, keys[i]);
    }
  }

  /** The month groups of year `y` hold as many cards as the year has items. */
  lemma MonthsTotal(visible: seq<MediaItem>, y: string)
    ensures MonthTotal(MonthGroupsOf(InYear(visible, y))) == |InYear(visible, y)|
  {
    var items := InYear(visible, y);
    var keys := NewestFirst(KeysOf(items, MonthOf));
    MonthTotalSizes(items, keys);
    forall x | x in items ensures MonthOf(x) in keys {
      assert MonthOf(x) in KeysOf(items, MonthOf);
    }
    PartitionSizes(items, MonthOf, keys);
  }

  /**
   * The month groups of an expanded year: newest month first, one per month
   * of that year's items, each holding exactly the visible items of that year
   * and month in their visible order; their sizes add up to the year's count.
   */
  lemma TimelineMonths(visible: seq<MediaItem>, expanded: set<string>, k: nat)
    requires visible != [] && k < |TimelineOf(visible, expanded).years|
    requires TimelineOf(visible, expanded).years[k].expanded
    ensures var g := TimelineOf(visible, expanded).years[k]; var ms := g.months;
      (forall i, j :: 0 <= i < j < |ms| ==> LexLt(ms[j].month, ms[i].month)) &&
      (forall x :: x in visible && x.year == g.year ==> HasMonth(ms, x.month)) &&
      (forall i :: 0 <= i < |ms| ==> ms[i].items != [] && ms[i].items == InYearMonth(visible, g.year, ms[i].month)) &&
      MonthTotal(ms) == g.count
  {
    var ys := NewestFirst(KeysOf(visible, YearOf));
    var g := TimelineOf(visible, expanded).years[k];
    assert g == YearGroupOf(visible, expanded, ys[k]);
    MonthsOrdered(visible, g.year);
    MonthsHoldItems(visible, g.year);
    MonthsTotal(visible, g.year);
  }

  // ---------------------------------------------------------------------------
  // The cards
  // ---------------------------------------------------------------------------

  /** The cards of a year's month groups, in document order. */
  function MonthCards(ms: seq<MonthGroup>): seq<MediaItem>
    decreases |ms|
  {
    if ms == [] then [] else MonthCards(ms[..|ms| - 1]) + ms[|ms| - 1].items
  }

  /** The cards of the year sections, in document order. */
  function YearCards(gs: seq<YearGroup>): seq<MediaItem>
    decreases |gs|
  {
    if gs == [] then [] else YearCards(gs[..|gs| - 1]) + MonthCards(gs[|gs| - 1].months)
  }

  /** Every card of the timeline, in document order. */
  function Cards(v: View): seq<MediaItem>
  {
    match v
    case NoResults => []
    case Timeline(gs) => YearCards(gs)
  }

  /** The `data-src` of every thumbnail of the timeline, in document order. */
  function CardUrls(v: View): seq<string>
  {
    var cards := Cards(v);
    seq(|cards|, i requires 0 <= i < |cards| => cards[i].url)
  }

  /** The visible items of the expanded years, in order. */
  function InExpanded(visible: seq<MediaItem>, expanded: set<string>): seq<MediaItem>
  {
    Filter(visible, (x: MediaItem) => x.year in expanded)
  }

  predicate HasMonth(ms: seq<MonthGroup>, m: string)
  {
    exists j :: 0 <= j < |ms| && ms[j].month == m
  }

  predicate HasYear(gs: seq<YearGroup>, y: string)
  {
    exists j :: 0 <= j < |gs| && gs[j].year == y
  }

  lemma {:induction false} MonthCardsCount(items: seq<MediaItem>, ms: seq<MonthGroup>, x: MediaItem)
    requires forall j :: 0 <= j < |ms| ==> ms[j].items == InMonth(items, ms[j].month)
    requires forall i, j :: 0 <= i < j < |ms| ==> ms[i].month != ms[j].month
    ensures multiset(MonthCards(ms))[x] == if HasMonth(ms, x.month) then multiset(items)[x] else 0
    decreases |ms|
  {
    if ms != [] {
      var init, last := ms[..|ms| - 1], ms[|ms| - 1];
      MonthCardsCount(items, init, x);
      WithKeyCount(items, MonthOf, last.month, x);
      if HasMonth(init, x.month) {
        var i :| 0 <= i < |init| && init[i].month == x.month;
        assert ms[i] == init[i];
      }
      if HasMonth(ms, x.month) {
        var j :| 0 <= j < |ms| && ms[j].month == x.month;
        if j < |init| {
          assert init[j] == ms[j];
        }
      }
    }
  }

  /** Month groups over distinct keys are distinct months, each holding its month's items. */
  lemma MonthGroupsAtShape(items: seq<MediaItem>, ms: seq<string>)
    requires Distinct(ms)
    ensures var gs := MonthGroupsAt(items, ms);
      (forall j :: 0 <= j < |gs| ==> gs[j].items == InMonth(items, gs[j].month)) &&
      (forall i, j :: 0 <= i < j < |gs| ==> gs[i].month != gs[j].month) &&
      (forall m :: m in ms ==> HasMonth(gs, m))
  {
    var gs := MonthGroupsAt(items, ms);
    forall m | m in ms ensures HasMonth(gs, m) {
      var i :| 0 <= i < |ms| && ms[i] == m;
      assert gs[i].month == m;
    }
  }

  /** The month groups of a year are distinct months, each holding its month's items. */
  lemma MonthGroupsShape(items: seq<MediaItem>)
    ensures var ms := MonthGroupsOf(items);
      (forall j :: 0 <= j < |ms| ==> ms[j].items == InMonth(items, ms[j].month)) &&
      (forall i, j :: 0 <= i < j < |ms| ==> ms[i].month != ms[j].month) &&
      (forall x :: x in items ==> HasMonth(ms, x.month))
  {
    var keys := NewestFirst(KeysOf(items, MonthOf));
    MonthGroupsAtShape(items, keys);
    forall x | x in items ensures x.month in keys {
      assert MonthOf(x) in KeysOf(items, MonthOf);
    }
  }

  /** The cards of one year section are its items when the year is expanded, and none otherwise. */
  lemma SectionCardsCount(visible: seq<MediaItem>, expanded: set<string>, y: string, x: MediaItem)
    ensures multiset(MonthCards(YearGroupOf(visible, expanded, y).months))[x] ==
      if x.year == y && y in expanded then multiset(visible)[x] else 0
  {
    var items := InYear(visible, y);
    WithKeyCount(visible, YearOf, y, x);
    if y in expanded {
      MonthGroupsShape(items);
      MonthCardsCount(items, MonthGroupsOf(items), x);
      if x.year == y && x in visible {
        WithKeyMember(visible, YearOf, y, x);
      }
    }
  }

  lemma {:induction false} YearCardsCount(visible: seq<MediaItem>, expanded: set<string>, gs: seq<YearGroup>, x: MediaItem)
    requires forall j :: 0 <= j < |gs| ==> gs[j] == YearGroupOf(visible, expanded, gs[j].year)
    requires forall i, j :: 0 <= i < j < |gs| ==> gs[i].year != gs[j].year
    ensures multiset(YearCards(gs))[x] == if HasYear(gs, x.year) && x.year in expanded then multiset(visible)[x] else 0
    decreases |gs|
  {
    if gs != [] {
      var init, last := gs[..|gs| - 1], gs[|gs| - 1];
      YearCardsCount(visible, expanded, init, x);
      SectionCardsCount(visible, expanded, last.year, x);
      if HasYear(init, x.year) {
        var i :| 0 <= i < |init| && init[i].year == x.year;
        assert gs[i] == init[i];
      }
      if HasYear(gs, x.year) {
        var j :| 0 <= j < |gs| && gs[j].year == x.year;
        if j < |init| {
          assert init[j] == gs[j];
        }
      }
    }
  }

  /** Each visible item of an expanded year has exactly one card, and nothing else has one. */
  lemma CardsOfTimeline(visible: seq<MediaItem>, expanded: set<string>)
    ensures multiset(Cards(TimelineOf(visible, expanded))) == multiset(InExpanded(visible, expanded))
  {
    if visible != [] {
      var gs := YearGroupsAt(visible, expanded, NewestFirst(KeysOf(visible, YearOf)));
      YearGroupsShape(visible, expanded, NewestFirst(KeysOf(visible, YearOf)));
      forall i, j | 0 <= i < j < |gs| ensures gs[i].year != gs[j].year {
        LexLeRefl(gs[i].year);
      }
      forall x ensures multiset(YearCards(gs))[x] == multiset(InExpanded(visible, expanded))[x] {
        YearCardsCount(visible, expanded, gs, x);
        FilterCount(visible, (x: MediaItem) => x.year in expanded, x);
      }
      assert multiset(YearCards(gs)) == multiset(InExpanded(visible, expanded));
    }
  }

}
