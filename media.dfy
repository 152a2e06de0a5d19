/**
 * The manifest entry shared by the index builder and the gallery engine,
 * `Array.prototype.filter`, and the date-descending sort both of them apply
 * with the comparator `(a, b) => b.date.localeCompare(a.date)`.
 */
module Media {
  import opened Wrappers
  import opened Text

  /** One manifest entry: where to fetch the image, its file name, and its date parts. */
  datatype MediaItem = MediaItem(url: string, filename: string, year: string, month: string, day: string, date: string)

  /** `s.filter(p)`. */
  function Filter<T>(s: seq<T>, p: T -> bool): seq<T>
  {
    if s == [] then [] else (if p(s[0]) then [s[0]] else []) + Filter(s[1..], p)
  }

  /** Filtering a concatenation filters each part: the kept items keep their relative order. */
  lemma {:induction false} FilterAppend<T>(a: seq<T>, b: seq<T>, p: T -> bool)
    ensures Filter(a + b, p) == Filter(a, p) + Filter(b, p)
    decreases |a|
  {
    if a != [] {
      assert (a + b)[0] == a[0] && (a + b)[1..] == a[1..] + b;
      FilterAppend(a[1..], b, p);
      var h := if p(a[0]) then [a[0]] else [];
      calc {
        Filter(a + b, p);
        h + Filter(a[1..] + b, p);
        h + (Filter(a[1..], p) + Filter(b, p));
        (h + Filter(a[1..], p)) + Filter(b, p);
      }
    } else {
      assert a + b == b;
    }
  }

  /** An item is kept as often as it occurs when it satisfies `p`, and never otherwise. */
  lemma {:induction false} FilterCount<T>(s: seq<T>, p: T -> bool, x: T)
    ensures multiset(Filter(s, p))[x] == if p(x) then multiset(s)[x] else 0
    decreases |s|
  {
    if s != [] {
      FilterCount(s[1..], p, x);
      assert s == [s[0]] + s[1..];
    }
  }

  lemma FilterMember<T>(s: seq<T>, p: T -> bool, x: T)
    ensures x in Filter(s, p) <==> x in s && p(x)
  {
    FilterCount(s, p, x);
    assert x in Filter(s, p) <==> multiset(Filter(s, p))[x] > 0;
  }

  /** When every item passes, the filter is the identity. */
  lemma {:induction false} FilterAll<T>(s: seq<T>, p: T -> bool)
    requires forall i :: 0 <= i < |s| ==> p(s[i])
    ensures Filter(s, p) == s
    decreases |s|
  {
    if s != [] {
      FilterAll(s[1..], p);
      assert s == [s[0]] + s[1..];
    }
  }

  lemma {:induction false} FilterLength<T>(s: seq<T>, p: T -> bool)
    ensures |Filter(s, p)| <= |s|
    decreases |s|
  {
    if s != [] { FilterLength(s[1..], p); }
  }

  /** Filters that agree on every item keep the same items. */
  lemma {:induction false} FilterEquiv<T>(s: seq<T>, p: T -> bool, q: T -> bool)
    requires forall x :: p(x) == q(x)
    ensures Filter(s, p) == Filter(s, q)
    decreases |s|
  {
    if s != [] { FilterEquiv(s[1..], p, q); }
  }

  /** The defined results of `f` over `s`, in order: a loop that pushes `f(x)` whenever it is defined. */
  function FilterMap<A, B>(s: seq<A>, f: A -> Option<B>): seq<B>
    decreases |s|
  {
    if s == [] then []
    else
      var rest := FilterMap(s[..|s| - 1], f);
      match f(s[|s| - 1])
      case None => rest
      case Some(y) => rest + [y]
  }

  lemma {:induction false} FilterMapAppend<A, B>(a: seq<A>, b: seq<A>, f: A -> Option<B>)
    ensures FilterMap(a + b, f) == FilterMap(a, f) + FilterMap(b, f)
    decreases |b|
  {
    if b == [] {
      assert a + b == a;
    } else {
      var init := b[..|b| - 1];
      assert (a + b)[..|a + b| - 1] == a + init;
      FilterMapAppend(a, init, f);
    }
  }

  /** `y` is produced exactly when `f` yields it for some element. */
  lemma {:induction false} FilterMapMember<A, B>(s: seq<A>, f: A -> Option<B>, y: B)
    ensures y in FilterMap(s, f) <==> exists k :: 0 <= k < |s| && f(s[k]) == Some(y)
    decreases |s|
  {
    if s != [] {
      var init := s[..|s| - 1];
      FilterMapMember(init, f, y);
      if y in FilterMap(init, f) {
        var k :| 0 <= k < |init| && f(init[k]) == Some(y);
        assert s[k] == init[k];
      }
      if exists k :: 0 <= k < |s| && f(s[k]) == Some(y) {
        var k :| 0 <= k < |s| && f(s[k]) == Some(y);
        if k < |init| {
          assert init[k] == s[k];
        }
      }
    }
  }

  lemma {:induction false} FilterMapLength<A, B>(s: seq<A>, f: A -> Option<B>)
    ensures |FilterMap(s, f)| <= |s|
    decreases |s|
  {
    if s != [] { FilterMapLength(s[..|s| - 1], f); }
  }

  // ---------------------------------------------------------------------------
  // Date-descending sort
  // ---------------------------------------------------------------------------

  /** Every item is dated on or after every item behind it. */
  predicate SortedByDate(s: seq<MediaItem>)
  {
    forall i, j :: 0 <= i < j < |s| ==> LexLe(s[j].date, s[i].date)
  }

  /**
   * One step of a stable insertion sort: `x` moves left past every item with a
   * strictly smaller date, so that it lands after all items dated on or after it.
   */
  function Insert(s: seq<MediaItem>, x: MediaItem): seq<MediaItem>
    decreases |s|
  {
    if s == [] || LexLe(x.date, s[|s| - 1].date) then s + [x]
    else Insert(s[..|s| - 1], x) + [s[|s| - 1]]
  }

  /** The manifest order: date descending, items with equal dates in their original order. */
  function SortByDateDesc(s: seq<MediaItem>): seq<MediaItem>
    decreases |s|
  {
    if s == [] then [] else Insert(SortByDateDesc(s[..|s| - 1]), s[|s| - 1])
  }

  lemma {:induction false} InsertPermutes(s: seq<MediaItem>, x: MediaItem)
    ensures multiset(Insert(s, x)) == multiset(s) + multiset{x}
    decreases |s|
  {
    if !(s == [] || LexLe(x.date, s[|s| - 1].date)) {
      InsertPermutes(s[..|s| - 1], x);
      assert s == s[..|s| - 1] + [s[|s| - 1]];
    }
  }

  lemma {:induction false} InsertSorted(s: seq<MediaItem>, x: MediaItem)
    requires SortedByDate(s)
    ensures SortedByDate(Insert(s, x))
    decreases |s|
  {
    if s == [] || LexLe(x.date, s[|s| - 1].date) {
      forall i | 0 <= i < |s| - 1 ensures LexLe(x.date, s[i].date) {
        LexLeTrans(x.date, s[|s| - 1].date, s[i].date);
      }
    } else {
      var init, last := s[..|s| - 1], s[|s| - 1];
      InsertSorted(init, x);
      InsertPermutes(init, x);
      LexLeTotal(x.date, last.date);
      var r := Insert(init, x);
      forall i | 0 <= i < |r| ensures LexLe(last.date, r[i].date) {
        assert r[i] in multiset(init) + multiset{x};
        if r[i] != x {
          var k :| 0 <= k < |init| && init[k] == r[i];
        }
      }
    }
  }

  /** The sort returns a date-descending permutation of its input. */
  lemma {:induction false} SortByDateDescCorrect(s: seq<MediaItem>)
    ensures SortedByDate(SortByDateDesc(s))
    ensures multiset(SortByDateDesc(s)) == multiset(s)
    decreases |s|
  {
    if s != [] {
      SortByDateDescCorrect(s[..|s| - 1]);
      InsertSorted(SortByDateDesc(s[..|s| - 1]), s[|s| - 1]);
      InsertPermutes(SortByDateDesc(s[..|s| - 1]), s[|s| - 1]);
      assert s == s[..|s| - 1] + [s[|s| - 1]];
    }
  }

  /** Filtering keeps a date-descending sequence date-descending. */
  lemma {:induction false} FilterSorted(s: seq<MediaItem>, p: MediaItem -> bool)
    requires SortedByDate(s)
    ensures SortedByDate(Filter(s, p))
    decreases |s|
  {
    if s != [] {
      var rest := Filter(s[1..], p);
      FilterSorted(s[1..], p);
      forall y | y in rest ensures LexLe(y.date, s[0].date) {
        FilterMember(s[1..], p, y);
        var k :| 0 <= k < |s[1..]| && s[1..][k] == y;
        assert s[k + 1] == y;
      }
    }
  }

  /** The items dated `d`, in order. */
  function DatedOn(s: seq<MediaItem>, d: string): seq<MediaItem>
  {
    Filter(s, (x: MediaItem) => x.date == d)
  }

  lemma {:induction false} InsertStable(s: seq<MediaItem>, x: MediaItem, d: string)
    requires SortedByDate(s)
    ensures DatedOn(Insert(s, x), d) == DatedOn(s, d) + (if x.date == d then [x] else [])
    decreases |s|
  {
    if s == [] || LexLe(x.date, s[|s| - 1].date) {
      FilterAppend(s, [x], (y: MediaItem) => y.date == d);
    } else {
      var init, last := s[..|s| - 1], s[|s| - 1];
      assert SortedByDate(init);
      InsertStable(init, x, d);
      FilterAppend(Insert(init, x), [last], (y: MediaItem) => y.date == d);
      FilterAppend(init, [last], (y: MediaItem) => y.date == d);
      assert s == init + [last];
      if x.date == d && last.date == d {
        LexLeRefl(d);
        assert false;
      }
    }
  }

  /** The sort is stable: items with the same date keep their input order. */
  lemma {:induction false} SortByDateDescStable(s: seq<MediaItem>, d: string)
    ensures DatedOn(SortByDateDesc(s), d) == DatedOn(s, d)
    decreases |s|
  {
    if s != [] {
      var init, last := s[..|s| - 1], s[|s| - 1];
      SortByDateDescStable(init, d);
      SortByDateDescCorrect(init);
      InsertStable(SortByDateDesc(init), last, d);
      assert s == init + [last];
      FilterAppend(init, [last], (y: MediaItem) => y.date == d);
    }
  }

}
