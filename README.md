# img-bed gallery: a Dafny model

img-bed is a static image host. Images live under `public/api/i/YYYY/M/D/<name>.<ext>`.

- A build script, the **index builder**, walks that directory. It keeps the files whose extension is on an allow-list and whose path parses as a dated image. It sorts the entries newest first and writes them to the manifest `images.json`.
- A browser page, the **gallery**, fetches the manifest and sorts it again. It shows the statistics and year/month/search filters. It draws a timeline: years newest first, and for each expanded year its months newest first, each month with one card per image. The thumbnails are lazy-loaded through an `IntersectionObserver`, and a lightbox steps through the visible images with the mouse and keyboard.

The model has eight modules, one file each.

| file | module | models |
|---|---|---|
| `wrappers.dfy` | `Wrappers` | `Option` |
| `text.dfy` | `Text` | ASCII digits, `padStart(2, '0')`, ASCII `toLowerCase`, `includes`, the code-point string order (JavaScript's code-unit order on text within U+FFFF), `.sort()` of distinct keys and `.reverse()` |
| `media.dfy` | `Media` | the manifest entry, `Array.prototype.filter`, the stable date-descending sort |
| `path_parser.dfy` | `PathParser` | `parseImagePath`: its regular expression is recognised by hand and also stated as a shape of the text, and the two are proved equal |
| `index_builder.dfy` | `IndexBuilder` | `path.extname`, `IMAGE_EXTENSIONS`, and the filter/parse/sort body of `generateGalleryIndex` |
| `timeline.dfy` | `Timeline` | what `renderGallery` draws, as a `View` value; the `byYear` dictionary loop; `monthNames` |
| `lazy_load.dfy` | `LazyLoad` | the `LazyLoader` class: the observer, the thumbnails by identity, the watched set, and the `load`/`error` events |
| `gallery.dfy` | `GalleryEngine` | the `Gallery` class: the page state (`allImages`, `visibleImages`, `currentIndex`, `expandedYears`, the controls, the drawn view, the lightbox) and every handler |

Each part of the model takes the same form as the code it describes:

- Computations are functions and lemmas.
- The page and the observer are classes whose methods update their fields.
- The source's loops are methods with loop invariants. These are the collecting loop, the `byYear` fill, the year/month section loops, the month-count reduce, the distinct-count statistics and the observer's `forEach`.
- Each method is proved against a specification function (`TimelineOf`, `Matching`, `SortByDateDesc`, `AfterBatch`, …), and the lemmas state what those functions promise.

JavaScript's `Array.prototype.sort` has been stable since ES2019. The model therefore describes the comparator sort `(a, b) => b.date.localeCompare(a.date)` as a stable insertion sort by date, newest first. `SortByDateDesc` is that sort written as a function.

## Model

| member | source | states |
|---|---|---|
| `Text.PadStart2` | generate-gallery-index.js:29-31 | `padStart(2, '0')` left-pads with '0' to two characters, keeps its argument as the suffix, and never truncates |
| `Text.Lower` | public/api/i/gallery-meow/script.js:147-152 | ASCII `toLowerCase`; its contract is stated by `Text.LowerIdempotent` |
| `Text.Includes` | public/api/i/gallery-meow/script.js:152 | `includes`, defined by scanning the positions; its contract is stated by `Text.IncludesIff` and `Text.IncludesEmpty` |
| `Text.LexLe` | public/api/i/gallery-meow/script.js:67 | the string order used for dates and keys; `Text.LexLeTotal`, `Text.LexLeAntisym` and `Text.LexLeTrans` state that it is a total order |
| `Text.LowerIdempotent` | public/api/i/gallery-meow/script.js:147-152 | lower-casing twice is lower-casing once, and leaves no upper-case ASCII letter |
| `Text.IncludesIff` | public/api/i/gallery-meow/script.js:152 | `s.includes(t)` holds exactly when `t` occurs at some position of `s` |
| `Text.IncludesEmpty` | public/api/i/gallery-meow/script.js:152 | every file name includes the empty search |
| `Text.LexLeTotal` | public/api/i/gallery-meow/script.js:67 | the string order used to compare dates is total |
| `Text.LexLeAntisym` | public/api/i/gallery-meow/script.js:67 | the string order is antisymmetric |
| `Text.LexLeTrans` | public/api/i/gallery-meow/script.js:67 | the string order is transitive |
| `Text.SortedKeys` | public/api/i/gallery-meow/script.js:127-131 | `[...new Set(keys)].sort()` lists every key exactly once, strictly ascending, and nothing else |
| `Text.AscendingUnique` | public/api/i/gallery-meow/script.js:127-131 | two strictly ascending lists with the same elements are equal, so the sorted key list is determined by its keys |
| `Text.LeastOf` | public/api/i/gallery-meow/script.js:131 | the least key of a non-empty set, found in one pass, is below every other key |
| `Text.SortKeys` | public/api/i/gallery-meow/script.js:127-131 | sorting a set of distinct keys, by repeatedly extracting the least, gives the ascending key list |
| `Text.ReversedAscending` | public/api/i/gallery-meow/script.js:176-178 | `.sort().reverse()` gives a strictly descending list with the same keys |
| `Media.FilterAppend` | public/api/i/gallery-meow/script.js:149-154 | filtering a concatenation filters each part, so kept items keep their relative order |
| `Media.FilterCount` | public/api/i/gallery-meow/script.js:149-154 | the filter keeps each item as often as it occurs when the item passes, and never otherwise |
| `Media.FilterMember` | public/api/i/gallery-meow/script.js:149-154 | an item is kept exactly when it is in the input and passes |
| `Media.FilterAll` | public/api/i/gallery-meow/script.js:149-154 | when every item passes, the filter is the identity |
| `Media.FilterMapAppend` | generate-gallery-index.js:54-70 | pushing the defined results of a loop over two lists of files gives those of the first list, then those of the second |
| `Media.FilterMapMember` | generate-gallery-index.js:54-70 | a result is pushed exactly when some input yields it |
| `Media.FilterMapLength` | generate-gallery-index.js:54-70 | at most one result per input |
| `Media.InsertPermutes` | generate-gallery-index.js:73 | one insertion step adds exactly the inserted item |
| `Media.InsertSorted` | generate-gallery-index.js:73 | inserting into a date-descending list keeps it date-descending |
| `Media.SortByDateDesc` | generate-gallery-index.js:73 | the comparator sort by `b.date.localeCompare(a.date)`; its contract is stated by `Media.SortByDateDescCorrect` and `Media.SortByDateDescStable` |
| `Media.SortByDateDescCorrect` | generate-gallery-index.js:73 | the sort by `b.date.localeCompare(a.date)` returns a date-descending permutation of its input |
| `Media.FilterSorted` | public/api/i/gallery-meow/script.js:149-154 | filtering a date-descending list keeps it date-descending |
| `Media.InsertStable` | generate-gallery-index.js:73 | insertion keeps the items of each date in order, adding the inserted one last |
| `Media.SortByDateDescStable` | public/api/i/gallery-meow/script.js:67 | the sort is stable: items with the same date keep their input order |
| `PathParser.DateSegment` | generate-gallery-index.js:20 | `(\d{1,2})\/` at a position: where its slash is, with two digits preferred to one |
| `PathParser.NameEnd` | generate-gallery-index.js:20 | the end of the run of non-slash characters `[^/]+` can take |
| `PathParser.LastSplit` | generate-gallery-index.js:20 | the backtracking of `([^/]+)\.(.+)$`: the last '.' at which both sides fit |
| `PathParser.SplitFileName` | generate-gallery-index.js:20 | the name/extension split of the rest of the text, if there is one |
| `PathParser.LastSplitComplete` | generate-gallery-index.js:20 | the greedy name stops at the last dot the extension can follow, and no later dot qualifies |
| `PathParser.SplitFileNameIff` | generate-gallery-index.js:20 | the rest of the text splits into `[^/]+` '.' `.+` exactly when it is a file name in the reference sense |
| `PathParser.DateSegmentIff` | generate-gallery-index.js:20 | the date-segment matcher accepts exactly one or two digits followed by a slash |
| `PathParser.FirstMatchStart` | generate-gallery-index.js:20 | the scan of `String.prototype.match`: the first start position at which the pattern matches, and no match before it |
| `PathParser.MatchAtParts` | generate-gallery-index.js:20 | a match at a position is built from a year, two date segments and a file-name split |
| `PathParser.MatchAtSound` | generate-gallery-index.js:20 | whatever the matcher accepts has the pattern's shape |
| `PathParser.MatchAtComplete` | generate-gallery-index.js:20 | every text of the pattern's shape is accepted by the matcher |
| `PathParser.MatchAtIff` | generate-gallery-index.js:20 | the matcher at a position accepts exactly the texts of the pattern's shape, starting there |
| `PathParser.ParseImagePath` | generate-gallery-index.js:18-33 | `parseImagePath`; its contract is stated by `PathParser.ParseIff`, `PathParser.ParsedSuffix`, `PathParser.ParsedDate` and `PathParser.ParsedLeftmost` |
| `PathParser.ParseIff` | generate-gallery-index.js:18-33 | a path parses exactly when some suffix of it reads `<4 digits>/<1-2 digits>/<1-2 digits>/<name>.<ext>`; otherwise `null` |
| `PathParser.MatchDateFields` | generate-gallery-index.js:20-23 | the year group is four digits; the month and day groups are one or two digits |
| `PathParser.MatchSpells` | generate-gallery-index.js:20-27 | the five groups spell the text from the match on, and the file name splits at the name's length |
| `PathParser.PaddedTwoDigits` | generate-gallery-index.js:29-30 | a padded one- or two-digit field is two digits ending in the raw ones, with a leading '0' when padded |
| `PathParser.ItemOfFields` | generate-gallery-index.js:25-32 | the entry built from the captures has padded month and day, a ten-character `YYYY-MM-DD` date, and a url that keeps the raw captures |
| `PathParser.ParsedLeftmost` | generate-gallery-index.js:20 | the match used starts at the leftmost position where the pattern fits |
| `PathParser.ParsedSuffix` | generate-gallery-index.js:18-33 | on a match: the file name is everything after the day's slash, is a valid file name, and nothing before the year matters; the url keeps month and day as written |
| `PathParser.ParsedDate` | generate-gallery-index.js:29-31 | on a match: month and day are two digits, padded with '0', and the date is `year-month-day` of length 10 |
| `PathParser.ParseExampleUnpadded` | generate-gallery-index.js:18-33 | `2024/3/5/cat.jpg` yields url `/api/i/2024/3/5/cat.jpg`, month `03`, day `05`, date `2024-03-05` |
| `IndexBuilder.ExtName` | generate-gallery-index.js:60 | `path.extname`; its contract is stated by `IndexBuilder.ExtNameShape`, `IndexBuilder.ExtNameAt` and `IndexBuilder.ExtNameOfFile` |
| `IndexBuilder.HasImageExtension` | generate-gallery-index.js:60-63 | `IMAGE_EXTENSIONS.has(ext.toLowerCase())`; its contract is stated by `IndexBuilder.HasImageExtensionIgnoresCase`, `IndexBuilder.ListedExtensionAccepted` and `IndexBuilder.EntryIff` |
| `IndexBuilder.TrimEnd` | generate-gallery-index.js:60 | `path.extname` ignores trailing slashes: the returned length ends at a non-slash |
| `IndexBuilder.SegStart` | generate-gallery-index.js:60 | the last path segment starts right after the last slash |
| `IndexBuilder.LastDot` | generate-gallery-index.js:60 | the last '.' of a range, with no '.' after it, or none at all |
| `IndexBuilder.ExtNameShape` | generate-gallery-index.js:60 | a non-empty extension is a '.' followed by neither '.' nor '/', ending the last segment right after at least one other character |
| `IndexBuilder.ExtNameAt` | generate-gallery-index.js:60 | the extension of a path whose last segment holds a dot that is not its first character is the text from the last dot on |
| `IndexBuilder.ExtNameOfFile` | generate-gallery-index.js:60 | `<dir><name>.<ext>` has extension `.<ext>` |
| `IndexBuilder.ExtNameLower` | generate-gallery-index.js:60 | lower-casing a path lower-cases its extension and changes nothing else about it |
| `IndexBuilder.HasImageExtensionIgnoresCase` | generate-gallery-index.js:60-63 | files whose paths differ only in letter case pass or fail the extension check together |
| `IndexBuilder.ListedExtensionAccepted` | generate-gallery-index.js:14-16 | every listed extension, in any letter case, is accepted |
| `IndexBuilder.Entry` | generate-gallery-index.js:56-69 | one iteration of the loop; its contract is stated by `IndexBuilder.EntryIff` and `IndexBuilder.EntryItem` |
| `IndexBuilder.EntryIff` | generate-gallery-index.js:56-69 | a file contributes an entry exactly when its lower-cased extension is one of the listed ones and some suffix of its path reads `<4 digits>/<1-2 digits>/<1-2 digits>/<name>.<ext>` |
| `IndexBuilder.EntryItem` | generate-gallery-index.js:18-33 | a contributed entry has a four-digit year, two-digit month and day, the date `year-month-day`, and a file name that is a proper suffix of the path and splits into name and extension |
| `IndexBuilder.EntryFileName` | generate-gallery-index.js:20-27 | the entry's year is four digits and its file name is a valid name ending the path |
| `IndexBuilder.CollectedAppend` | generate-gallery-index.js:54-70 | the loop collects entries in file order |
| `IndexBuilder.CollectedMember` | generate-gallery-index.js:54-70 | an entry is collected exactly when some file has a listed extension and parses to it |
| `IndexBuilder.CollectedLength` | generate-gallery-index.js:54-70 | at most one entry per file |
| `IndexBuilder.GenerateGalleryIndex` | generate-gallery-index.js:54-73 | the manifest is the date-descending stable sort of the collected entries: sorted, a permutation of them, holding exactly the entries some file yields, with equal dates in file order |
| `Timeline.MonthLabel` | public/api/i/gallery-meow/script.js:217 | the month's name from `monthNames`, or `<month>月` when there is none; its contract is stated by `Timeline.MonthNamesKeys` and `Timeline.MonthLabelCases` |
| `Timeline.MonthNamesKeys` | public/api/i/gallery-meow/script.js:7-20 | `monthNames` has exactly the keys `01` … `12` |
| `Timeline.MonthLabelCases` | public/api/i/gallery-meow/script.js:7-20 | every key of `monthNames` is labelled by its non-empty name; every other key falls back to `<key>月`; `01`, `10`, `12` get their names and `3`, `13` fall back |
| `Timeline.WithKeyAppend` | public/api/i/gallery-meow/script.js:170-174 | pushing an item adds it to its own key's group and to no other |
| `Timeline.KeysOfAppend` | public/api/i/gallery-meow/script.js:170-174 | pushing an item adds its key to the keys |
| `Timeline.WithKeyNonEmpty` | public/api/i/gallery-meow/script.js:171-172 | a key has a non-empty group exactly when some item carries it |
| `Timeline.WithKeyCount` | public/api/i/gallery-meow/script.js:170-174 | an item is in its own key's group as often as it is visible, and in no other group |
| `Timeline.InMonthOfYear` | public/api/i/gallery-meow/script.js:169-174 | grouping by year and then by month keeps exactly the items of that year and month, in visible order |
| `Timeline.DescribesStep` | public/api/i/gallery-meow/script.js:171-173 | one step of the `forEach` turns the dictionary of a prefix into the dictionary of the prefix plus one item |
| `Timeline.MonthsStep` | public/api/i/gallery-meow/script.js:172-173 | the same, for one year's month dictionary |
| `Timeline.GroupByYear` | public/api/i/gallery-meow/script.js:169-174 | the filled `byYear` holds exactly the visible years; each year holds exactly its months; each month holds that year and month's items in visible order |
| `Timeline.DistinctOnce` | public/api/i/gallery-meow/script.js:176-178 | in a list of distinct keys, a key occurs once if at all |
| `Timeline.KeySizesAppend` | public/api/i/gallery-meow/script.js:184-187 | a new item adds one to a key-group total for each time its key is listed |
| `Timeline.PartitionSizes` | public/api/i/gallery-meow/script.js:184-187 | groups over distinct keys that cover every item account for every item exactly once |
| `Timeline.NewestFirst` | public/api/i/gallery-meow/script.js:176-178 | `Object.keys(...).sort().reverse()` is strictly descending, lists each key once, and nothing else |
| `Timeline.MonthSizesCover` | public/api/i/gallery-meow/script.js:184-187 | one year's month groups, summed over its month keys, hold all of its items |
| `Timeline.CountItems` | public/api/i/gallery-meow/script.js:184-187 | the `reduce` over a year's month lists equals the number of that year's visible items |
| `Timeline.NewestFirstKeys` | public/api/i/gallery-meow/script.js:176-178 | the method that sorts and reverses the keys computes the newest-first key list |
| `Timeline.MonthSections` | public/api/i/gallery-meow/script.js:205-283 | the month loop of an expanded year gives one group per listed month, in order, each holding that month's items |
| `Timeline.MonthGroups` | public/api/i/gallery-meow/script.js:204-208 | an expanded year's month groups are its months newest first, each with its items |
| `Timeline.YearSection` | public/api/i/gallery-meow/script.js:180-284 | one year section: its key, its count, whether it is expanded, and its month groups only when expanded |
| `Timeline.YearSections` | public/api/i/gallery-meow/script.js:176-287 | the year loop gives one section per listed year, in order |
| `Timeline.TimelineOf` | public/api/i/gallery-meow/script.js:159-288 | the timeline `renderGallery` draws, as a value; its contract is stated by `Timeline.TimelineYears`, `Timeline.TimelineMonths`, `Timeline.TimelineTotal` and `Timeline.CardsOfTimeline` |
| `Timeline.RenderGallery` | public/api/i/gallery-meow/script.js:159-288 | `renderGallery` draws exactly the timeline the visible items and expanded years determine, and the "no matching images" message when nothing is visible |
| `Timeline.TimelineTotal` | public/api/i/gallery-meow/script.js:184-187 | the year counts add up to the number of visible items |
| `Timeline.YearGroupsShape` | public/api/i/gallery-meow/script.js:176-189 | the year sections are one per visible year, newest first, each the section of its own year |
| `Timeline.TimelineYears` | public/api/i/gallery-meow/script.js:176-204 | with something visible: newest year first, one section per visible year, each carrying its number of items; only expanded years list months |
| `Timeline.MonthsOrdered` | public/api/i/gallery-meow/script.js:204-208 | a year's month groups are newest month first and cover every month of the year's items |
| `Timeline.MonthsHoldItems` | public/api/i/gallery-meow/script.js:209 | each month group holds exactly the visible items of that year and month, in visible order, and at least one |
| `Timeline.MonthsTotal` | public/api/i/gallery-meow/script.js:184-187 | a year's month groups hold as many cards as the year's count says |
| `Timeline.TimelineMonths` | public/api/i/gallery-meow/script.js:204-224 | an expanded year lists its months newest first, one per month of its items, each with exactly that month's items in order; their sizes sum to the year's count |
| `Timeline.MonthCardsCount` | public/api/i/gallery-meow/script.js:224-280 | the cards of month groups over distinct months are the items of the months listed, each once |
| `Timeline.MonthGroupsShape` | public/api/i/gallery-meow/script.js:205-209 | a year's month groups are distinct months, each holding its month's items |
| `Timeline.SectionCardsCount` | public/api/i/gallery-meow/script.js:204-284 | a year section has a card for each of its items when the year is expanded, and none otherwise |
| `Timeline.YearCardsCount` | public/api/i/gallery-meow/script.js:176-287 | the cards of distinct year sections are the items of the expanded years listed, each once |
| `Timeline.CardsOfTimeline` | public/api/i/gallery-meow/script.js:159-288 | every visible item of an expanded year has exactly one card, and nothing else has one |
| `LazyLoad.PhaseOf` | public/api/i/gallery-meow/script.js:29-36 | the stage of a thumbnail (pending, requested, shown, failed); its contract is stated by `LazyLoad.Fresh`, `LazyLoad.Request` and `LazyLoad.RequestChanges` |
| `LazyLoad.Fresh` | public/api/i/gallery-meow/script.js:241-244 | a new thumbnail keeps its address in `data-src`, has no `src`, and is pending |
| `LazyLoad.Request` | public/api/i/gallery-meow/script.js:29-36 | a reported thumbnail with an address gets `src` = `data-src` and the class "loaded"; without an address it is left alone |
| `LazyLoad.RequestChanges` | public/api/i/gallery-meow/script.js:31-34 | the callback changes a pending thumbnail exactly when its `data-src` is non-empty (`HandleEntry` unwatches it under the same test) |
| `LazyLoad.LazyLoader.constructor` | public/api/i/gallery-meow/script.js:4 | no observer and no thumbnails before the gallery loads |
| `LazyLoad.LazyLoader.Init` | public/api/i/gallery-meow/script.js:23-45 | `initLazyLoading` creates the observer unless one exists, so at most one is ever created |
| `LazyLoad.LazyLoader.CreateImage` | public/api/i/gallery-meow/script.js:241-255 | one `<img>`: a new identity with a fresh thumbnail, watched only if the observer exists |
| `LazyLoad.LazyLoader.CreateImages` | public/api/i/gallery-meow/script.js:224-280 | one fresh, new `<img>` per card in order; older ones are unchanged; new ones are watched only if the observer exists |
| `LazyLoad.LazyLoader.Mount` | public/api/i/gallery-meow/script.js:160-161 | after a render, the timeline's thumbnails are the cards' urls in document order, all new and pending |
| `LazyLoad.LazyLoader.HandleEntry` | public/api/i/gallery-meow/script.js:28-37 | one entry: a watched thumbnail reported on screen with an address is requested and unwatched; otherwise nothing changes |
| `LazyLoad.LazyLoader.OnIntersection` | public/api/i/gallery-meow/script.js:27-38 | a batch requests and unwatches exactly the watched thumbnails that some entry reports on screen and that have an address; the timeline's addresses are unchanged |
| `LazyLoad.LazyLoader.OnLoad` | public/api/i/gallery-meow/script.js:246-249 | a requested thumbnail that loads is shown: its placeholder is hidden and it has the class "loaded" |
| `LazyLoad.LazyLoader.OnError` | public/api/i/gallery-meow/script.js:251-253 | a requested thumbnail that fails keeps everything but its placeholder, which becomes the cross |
| `LazyLoad.BatchStep` | public/api/i/gallery-meow/script.js:28 | handling entry `k` after the ones before it gives the state after the first `k + 1` entries |
| `LazyLoad.AfterBatchSources` | public/api/i/gallery-meow/script.js:27-38 | the callback changes no thumbnail's `data-src` |
| `GalleryEngine.Matching` | public/api/i/gallery-meow/script.js:149-154 | the filter of `filterGallery`; its contract is stated by `GalleryEngine.MatchingMember`, `GalleryEngine.MatchingNoFilter`, `GalleryEngine.MatchingYearOnly`, `GalleryEngine.MatchingSorted` and `GalleryEngine.MatchingMonthNarrows` |
| `GalleryEngine.MatchingMember` | public/api/i/gallery-meow/script.js:149-154 | an item is visible exactly when it is loaded and passes the year, month and search tests |
| `GalleryEngine.MatchingNoFilter` | public/api/i/gallery-meow/script.js:150-152 | with every control empty, everything is visible, in loaded order |
| `GalleryEngine.MatchingYearOnly` | public/api/i/gallery-meow/script.js:150 | a year alone shows exactly that year's items, in order |
| `GalleryEngine.MatchingSorted` | public/api/i/gallery-meow/script.js:149-154 | the visible items of a date-descending manifest are date-descending |
| `GalleryEngine.MatchingMonthNarrows` | public/api/i/gallery-meow/script.js:151 | choosing a month never adds visible items |
| `GalleryEngine.DistinctBounds` | public/api/i/gallery-meow/script.js:75-81 | there are no more distinct keys than items, and at least one when something is loaded |
| `GalleryEngine.CountDistinct` | public/api/i/gallery-meow/script.js:75-81 | `[...new Set(map(key))].length` is the number of distinct keys |
| `GalleryEngine.MaxYear` | public/api/i/gallery-meow/script.js:89-94 | the latest loaded year; its contract is stated by `GalleryEngine.MaxYearCorrect` and `GalleryEngine.NewestFirstHead` |
| `GalleryEngine.MaxYearCorrect` | public/api/i/gallery-meow/script.js:89-94 | there is a latest year exactly when something is loaded; it is a loaded year and no loaded year comes after it |
| `GalleryEngine.NewestFirstHead` | public/api/i/gallery-meow/script.js:89-94 | the first of the newest-first years is the latest year, and the list is empty exactly when nothing is loaded |
| `GalleryEngine.MonthOptions` | public/api/i/gallery-meow/script.js:126-131 | the month option values of a year; its contract is stated by `GalleryEngine.MonthOptionsCorrect` |
| `GalleryEngine.MonthOptionsCorrect` | public/api/i/gallery-meow/script.js:126-131 | the month options list each month of the selected year once, ascending, and nothing else |
| `GalleryEngine.Wrap` | public/api/i/gallery-meow/script.js:314-317 | the index wrap of `navigateImage`; its contract is stated by `GalleryEngine.WrapRange`, `GalleryEngine.WrapSteps` and `GalleryEngine.WrapInverse` |
| `GalleryEngine.WrapRange` | public/api/i/gallery-meow/script.js:314-317 | with images, the index always lands on one of them; with none it becomes -1 or 0 |
| `GalleryEngine.WrapSteps` | public/api/i/gallery-meow/script.js:314-317 | from an image, next and previous go round the list; an index past the end restarts at 0 |
| `GalleryEngine.WrapInverse` | public/api/i/gallery-meow/script.js:314-317 | next then previous, or previous then next, returns to the same image |
| `GalleryEngine.Toggled` | public/api/i/gallery-meow/script.js:291-296 | the set toggle of `toggleYear`; its contract is stated by `GalleryEngine.ToggledFlipsOnly` |
| `GalleryEngine.ToggledFlipsOnly` | public/api/i/gallery-meow/script.js:291-296 | toggling flips the given year alone, and toggling twice restores the set |
| `GalleryEngine.Gallery.constructor` | public/api/i/gallery-meow/script.js:1-5 | empty state before `discoverImages`: nothing loaded, index 0, nothing expanded, no observer |
| `GalleryEngine.Gallery.Render` | public/api/i/gallery-meow/script.js:159-288 | the drawn view is the timeline of the visible items and expanded years; its thumbnails are one new, pending `<img>` per card in document order, watched exactly when the observer exists; earlier thumbnails keep their state and watching; no page field changes |
| `GalleryEngine.Gallery.FilterGallery` | public/api/i/gallery-meow/script.js:144-157 | the visible items are the loaded ones passing the three controls, with the search lower-cased, and the view is redrawn with fresh thumbnails |
| `GalleryEngine.Gallery.UpdateMonthFilter` | public/api/i/gallery-meow/script.js:120-142 | the month options become the selected year's months, ascending; the month resets to all; then the filter runs and the view is redrawn with fresh thumbnails |
| `GalleryEngine.Gallery.ChangeYear` | public/api/i/gallery-meow/script.js:115-117 | choosing a year sets the month options for it, resets the month, refilters and redraws with fresh thumbnails; the loaded items, counts, year options, search, expanded years, index and lightbox do not change |
| `GalleryEngine.Gallery.SelectMonth` | public/api/i/gallery-meow/script.js:146 | a new month choice changes only the month control: every other page field, the drawn view and the thumbnails stay, and the page stays consistent |
| `GalleryEngine.Gallery.TypeSearch` | public/api/i/gallery-meow/script.js:147 | new search text changes only the search control: every other page field, the drawn view and the thumbnails stay, and the page stays consistent |
| `GalleryEngine.Gallery.Load` | public/api/i/gallery-meow/script.js:54-101 | a failed fetch shows only the failure: items, counts, options, expanded years, view and thumbnails unchanged; a manifest is sorted date-descending with stable ties, counted, offered as filters, the newest year is expanded, and the timeline drawn with fresh, watched thumbnails; the year and search controls, the index and the lightbox never change |
| `GalleryEngine.Gallery.Loaded` | public/api/i/gallery-meow/script.js:64-95 | the successful path of `discoverImages`: sorted items, counts, year and month options, visible items, expanded newest year, the drawn timeline with fresh, watched thumbnails; the year and search controls, the index and the lightbox stay |
| `GalleryEngine.Gallery.SetManifest` | public/api/i/gallery-meow/script.js:64-81 | the manifest sorted date-descending as a permutation; the counts are the number of items, distinct years and distinct year-months |
| `GalleryEngine.Gallery.PopulateFilters` | public/api/i/gallery-meow/script.js:103-118 | the years, newest first, are appended to the year options; then `updateMonthFilter` redraws with fresh thumbnails; the items, counts, expanded years, controls, index and lightbox stay |
| `GalleryEngine.Gallery.ExpandNewest` | public/api/i/gallery-meow/script.js:88-94 | the latest loaded year, if any, is added to the expanded years |
| `GalleryEngine.Gallery.ShowTimeline` | public/api/i/gallery-meow/script.js:85-95 | the observer exists, the newest year is expanded, and the timeline is drawn |
| `GalleryEngine.Gallery.ToggleYear` | public/api/i/gallery-meow/script.js:291-298 | the year's expansion flips and the timeline is redrawn with fresh thumbnails; every other page field, including the visible items and the lightbox, stays |
| `GalleryEngine.Gallery.OpenLightbox` | public/api/i/gallery-meow/script.js:300-308 | opening a card shows its image and sets the index to its position among the visible items; the filters, items and drawn view stay and the page stays consistent |
| `GalleryEngine.Gallery.CloseLightbox` | public/api/i/gallery-meow/script.js:310-312 | the lightbox is closed; the index, the image and every other page field stay |
| `GalleryEngine.Gallery.NavigateImage` | public/api/i/gallery-meow/script.js:314-323 | the index moves by the direction, wrapping at both ends; the lightbox is open and shows the image there when there is one, and is left as it was when nothing is visible; no other page field changes |
| `GalleryEngine.Gallery.KeyDown` | public/api/i/gallery-meow/script.js:325-331 | keys act only while the lightbox is open: Escape closes it keeping index and image, the arrows step back and forward with the lightbox open on the image at the new index, other keys change nothing; filters, items and view never change |
| `GalleryEngine.Gallery.LightboxClick` | public/api/i/gallery-meow/script.js:333-335 | an open lightbox closes exactly on a click on the backdrop itself, and a closed one stays closed; the index, the image and every other page field stay |
| `GalleryEngine.Gallery.ObserverReports` | public/api/i/gallery-meow/script.js:27-38 | the observer's callback requests exactly the watched, reported thumbnails with an address, and the drawn timeline stays in step with its thumbnails |

## Left out

- `IndexBuilder.Entry`: the model takes one path for each file, the relative path after `.replace(/\\/g, '/')`, and takes `path.extname` of that same text. The source takes `extname` of the original path, where a backslash is not a separator on POSIX. The two differ only for a file name containing a backslash. `2024/1/2/x.jpg\` becomes `2024/1/2/x.jpg/`: the model reads extension `.jpg` and keeps the file, while the source reads `.jpg\`, which is not listed, and skips it. `2024/1/2/a\b.jpg` has `.jpg` in both.
- The directory walk (`glob` with its ignore list) and `path.relative` are not modelled. The builder takes its files as a list of paths relative to the image directory. The prefix `public/api/i/` holds no digit, so the regular expression matches at the same places in either form. `path.extname` of the relative path equals that of the full path.
- Writing `images.json`, `JSON.stringify`/`JSON.parse`, `fetch`, and all console logging are I/O. `Gallery.Load` receives the fetched manifest, or `None` when the request or its JSON fails.
- The DOM is left out. The model keeps what it shows as values: the `View`, the options, the counts and the lightbox's image. Not modelled: markup, class names, the year marker `year.slice(-2)`, the `${year}年` and `N 张照片` texts, `toLocaleString` and the failure message's colour.
- `Gallery.UpdateMonthFilter`: the option texts `${Number.parseInt(month)}月` are not modelled. Only the option values are.
- `Timeline.GroupByYear`, `Timeline.MonthLabel`: `byYear`, its month dictionaries and `monthNames` are plain JavaScript objects. The model treats them as maps, so it assumes no key is a name `Object.prototype` already has (`__proto__`, `constructor`, `toString`). Year and month keys are digits by construction, so they never are.
- `IntersectionObserver` geometry (`rootMargin`, `threshold`) is left out. When an entry is reported intersecting is an input (`Entry.isIntersecting`).
- `Text.Lower`: `toLowerCase` is modelled on ASCII letters only. Full Unicode case mapping is left out.
- `Text.LexLe`: `localeCompare`, `<` and `.sort()` are modelled as code-point order, since a Dafny `char` is a code point. On text within U+FFFF that is JavaScript's code-unit order; on text with characters beyond it the two can differ, and that is not modelled. `localeCompare` agrees with it on the fixed-width ASCII dates the parser produces; locale collation of other strings is not modelled.
- The sort is a stable insertion sort written as a function (`Media.SortByDateDesc`). The engine's in-place `Array.prototype.sort` on the same array is therefore modelled by assigning the sorted sequence.
- `Timeline.CountItems` sums the month lists in ascending key order, while `Object.values` visits them in insertion order. The sum is the same.
- `Gallery.OpenLightbox` takes the card's position. In the source, `indexOf` finds the same position because each card closes over its own object. Object identity is not modelled.
- `currentIndex` is not reset when the filters change, exactly as in the source. The model keeps it as an `int` that can be stale or -1.
- The inline `onchange`/`onclick` handlers of `index.html` are not modelled beyond the window exports (script.js lines 338-341). `Gallery.SelectMonth` and `Gallery.TypeSearch` model the control changes; the page then calls `FilterGallery`. index.html is not part of this model.
- Thumbnails of earlier renders stay in `LazyLoader.images`, and stay watched when they were watched, because the source never unobserves detached images. The model keeps them but makes no claim about the browser reporting them.
- `Gallery.Load`: `discoverImages` also catches exceptions from rendering. The model treats only a failed fetch or parse as the failure path, since the model's rendering cannot fail.
- schedule-build.js (a scheduler that reruns the builder) is not part of this model.
