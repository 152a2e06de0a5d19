/**
 * `parseImagePath`: a relative path is matched against
 *   (\d{4})\/(\d{1,2})\/(\d{1,2})\/([^/]+)\.(.+)$
 * and, on a match, turned into a manifest entry with zero-padded month and day.
 * The regular expression is recognised by hand, with the semantics of a
 * JavaScript regular expression without flags: the leftmost start position
 * wins, `\d{1,2}` tries two digits before one, `[^/]+` is greedy and gives
 * back characters until a `.` follows, and `.` matches every character except
 * the four line terminators.
 */
module PathParser {
  import opened Wrappers
  import opened Text
  import opened Media

  /** Where the match starts, and the five capture groups. */
  datatype Match = Match(start: nat, year: string, month: string, day: string, name: string, ext: string)

  predicate IsLineTerminator(c: char)
  {
    c == '\n' || c == '\r' || c == '\U{2028}' || c == '\U{2029}'
  }

  predicate NoLineTerminator(s: string) { forall i :: 0 <= i < |s| ==> !IsLineTerminator(s[i]) }

  predicate NoSlash(s: string) { forall i :: 0 <= i < |s| ==> s[i] != '/' }

  // ---------------------------------------------------------------------------
  // The pattern, stated as a shape of the text (the reference definition)
  // ---------------------------------------------------------------------------

  /** `r` reads `<name>.<ext>` with the dot at `j`: a non-empty name without '/', a non-empty extension without line terminators. */
  predicate SplitsAt(r: string, j: int)
  {
    1 <= j && j + 1 < |r| && r[j] == '.' && NoSlash(r[..j]) && NoLineTerminator(r[j + 1..])
  }

  ghost predicate IsFileName(r: string) { exists j :: SplitsAt(r, j) }

  /** From `p` on, `s` reads `<4 digits>/<ml digits>/<dl digits>/<name>.<ext>` up to its end. */
  ghost predicate Layout(s: string, p: int, ml: int, dl: int)
  {
    1 <= ml <= 2 && 1 <= dl <= 2 && 0 <= p && p + 7 + ml + dl <= |s| &&
    AllDigits(s[p..p + 4]) && s[p + 4] == '/' &&
    AllDigits(s[p + 5..p + 5 + ml]) && s[p + 5 + ml] == '/' &&
    AllDigits(s[p + 6 + ml..p + 6 + ml + dl]) && s[p + 6 + ml + dl] == '/' &&
    IsFileName(s[p + 7 + ml + dl..])
  }

  /** The pattern matches with its first group starting at `p`. */
  ghost predicate ShapedAt(s: string, p: int)
  {
    exists ml, dl :: Layout(s, p, ml, dl)
  }

  // ---------------------------------------------------------------------------
  // The matcher
  // ---------------------------------------------------------------------------

  /** `(\d{4})\/` at `p`. */
  predicate YearAt(s: string, p: nat)
  {
    p + 4 < |s| && AllDigits(s[p..p + 4]) && s[p + 4] == '/'
  }

  /** `\d{1,2}\/` at `i`, two digits tried before one: the index of the slash. */
  function DateSegment(s: string, i: nat): (e: Option<nat>)
    ensures e.Some? ==> i < e.value <= i + 2 && e.value < |s| && s[e.value] == '/' && AllDigits(s[i..e.value])
  {
    if i + 2 < |s| && IsDigit(s[i]) && IsDigit(s[i + 1]) && s[i + 2] == '/' then Some(i + 2)
    else if i + 1 < |s| && IsDigit(s[i]) && s[i + 1] == '/' then Some(i + 1)
    else None
  }

  /** How far `[^/]+` first reaches from `i`: the first slash at or after `i`, or the end. */
  function NameEnd(s: string, i: nat): (n: nat)
    requires i <= |s|
    ensures i <= n <= |s| && (n < |s| ==> s[n] == '/')
    ensures forall k :: i <= k < n ==> s[k] != '/'
    decreases |s| - i
  {
    if i == |s| || s[i] == '/' then i else NameEnd(s, i + 1)
  }

  /** `\.(.+)$` at `d`: a '.', then at least one character, none of them a line terminator, up to the end. */
  predicate TailAt(s: string, d: nat)
  {
    d + 1 < |s| && s[d] == '.' && forall k :: d < k < |s| ==> !IsLineTerminator(s[k])
  }

  /** Backtracking of `[^/]+`, which started at `lo`, from `j` down to `lo + 1` until `\.(.+)$` matches at the end of the name. */
  function LastSplit(s: string, lo: nat, j: nat): (d: Option<nat>)
    ensures d.Some? ==> lo < d.value <= j && TailAt(s, d.value)
    decreases j
  {
    if j <= lo then None
    else if TailAt(s, j) then Some(j)
    else LastSplit(s, lo, j - 1)
  }

  /** `([^/]+)\.(.+)$` from `i`: the index of the dot that separates name and extension. */
  function SplitFileName(s: string, i: nat): (d: Option<nat>)
    requires i <= |s|
    ensures d.Some? ==> i < d.value && TailAt(s, d.value) && forall k :: i <= k < d.value ==> s[k] != '/'
  {
    LastSplit(s, i, NameEnd(s, i))
  }

  /** The five groups of a match at `p` whose month ends at `me`, whose day ends at `de`, and whose name ends at `d`. */
  function Captures(s: string, p: nat, me: nat, de: nat, d: nat): Match
    requires p + 5 <= me < de < d < |s|
  {
    Match(p, s[p..p + 4], s[p + 5..me], s[me + 1..de], s[de + 1..d], s[d + 1..])
  }

  /** The pattern tried with its first group at `p`. */
  function MatchAt(s: string, p: nat): Option<Match>
  {
    if !YearAt(s, p) then None
    else
      match DateSegment(s, p + 5)
      case None => None
      case Some(me) =>
        match DateSegment(s, me + 1)
        case None => None
        case Some(de) =>
          match SplitFileName(s, de + 1)
          case None => None
          case Some(d) => Some(Captures(s, p, me, de, d))
  }

  /**
   * The scan of `String.prototype.match`: the first start position, from `p` on,
   * at which the pattern matches; no position before it matches.
   */
  function FirstMatchStart(s: string, p: nat): (k: Option<nat>)
    ensures k.Some? ==> p <= k.value < |s| && MatchAt(s, k.value).Some?
    ensures k.Some? ==> forall q :: p <= q < k.value ==> MatchAt(s, q).None?
    ensures k.None? ==> forall q :: p <= q < |s| ==> MatchAt(s, q).None?
    decreases |s| - p
  {
    if p >= |s| then None
    else if MatchAt(s, p).Some? then Some(p)
    else FirstMatchStart(s, p + 1)
  }

  /** `String.prototype.match` without the global flag: the leftmost match, if any. */
  function FirstMatch(s: string, p: nat): Option<Match>
  {
    match FirstMatchStart(s, p)
    case None => None
    case Some(q) => MatchAt(s, q)
  }

  /** The manifest entry built from a match: month and day padded, the url from the unpadded captures. */
  function ItemOf(m: Match): MediaItem
  {
    var filename := m.name + "." + m.ext;
    var month, day := PadStart2(m.month), PadStart2(m.day);
    MediaItem(
      url := "/api/i/" + m.year + "/" + m.month + "/" + m.day + "/" + filename,
      filename := filename,
      year := m.year,
      month := month,
      day := day,
      date := m.year + "-" + month + "-" + day)
  }

  /** `parseImagePath(relativePath)`: `null` becomes `None`. */
  function ParseImagePath(path: string): Option<MediaItem>
  {
    match FirstMatch(path, 0)
    case None => None
    case Some(m) => Some(ItemOf(m))
  }

  // ---------------------------------------------------------------------------
  // The matcher recognises exactly the pattern
  // ---------------------------------------------------------------------------

  /** The file-name shape of the text from `i` on, with its dot at `i + j`, read on the whole text. */
  lemma SplitsAtShift(s: string, i: nat, j: int)
    requires i <= |s|
    ensures SplitsAt(s[i..], j) <==>
      1 <= j && TailAt(s, i + j) && forall k :: i <= k < i + j ==> s[k] != '/'
  {
    var r := s[i..];
    if 1 <= j && j + 1 < |r| {
      var name, ext := r[..j], r[j + 1..];
      assert forall k :: 0 <= k < |name| ==> name[k] == s[i + k];
      assert forall k :: 0 <= k < |ext| ==> ext[k] == s[i + j + 1 + k];
      if TailAt(s, i + j) && forall k :: i <= k < i + j ==> s[k] != '/' {
        assert NoSlash(r[..j]);
        assert NoLineTerminator(r[j + 1..]);
      }
      if SplitsAt(r, j) {
        forall k | i <= k < i + j
          ensures s[k] != '/'
        {
          assert r[..j][k - i] == s[k];
        }
        forall k | i + j < k < |s|
          ensures !IsLineTerminator(s[k])
        {
          assert r[j + 1..][k - i - j - 1] == s[k];
        }
      }
    }
  }

  lemma {:induction false} LastSplitComplete(s: string, lo: nat, j: nat, d: nat)
    requires lo < d <= j && TailAt(s, d)
    ensures LastSplit(s, lo, j).Some? && d <= LastSplit(s, lo, j).value
    decreases j
  {
    if j > d && !TailAt(s, j) {
      LastSplitComplete(s, lo, j - 1, d);
    }
  }

  /** The greedy split succeeds exactly on the names the pattern accepts, at the last possible dot. */
  lemma SplitFileNameIff(s: string, i: nat)
    requires i <= |s|
    ensures SplitFileName(s, i).Some? <==> IsFileName(s[i..])
    ensures SplitFileName(s, i).Some? ==> SplitsAt(s[i..], SplitFileName(s, i).value - i)
    ensures forall j :: SplitsAt(s[i..], j) ==> SplitFileName(s, i).Some? && i + j <= SplitFileName(s, i).value
  {
    var n := NameEnd(s, i);
    forall j | SplitsAt(s[i..], j)
      ensures SplitFileName(s, i).Some? && i + j <= SplitFileName(s, i).value
    {
      SplitsAtShift(s, i, j);
      assert i + j <= n;
      LastSplitComplete(s, i, n, i + j);
    }
    if SplitFileName(s, i).Some? {
      SplitsAtShift(s, i, SplitFileName(s, i).value - i);
    }
  }

  lemma DateSegmentIff(s: string, i: nat, l: int)
    requires 1 <= l <= 2
    ensures DateSegment(s, i) == Some(i + l) <==> (i + l < |s| && AllDigits(s[i..i + l]) && s[i + l] == '/')
  {
    if i + l < |s| && AllDigits(s[i..i + l]) {
      assert s[i..i + l][0] == s[i];
      if l == 2 { assert s[i..i + l][1] == s[i + 1]; }
    }
  }

  /** Where the month and the day end, and where the file name splits, in a match at `p`. */
  lemma MatchAtParts(s: string, p: nat) returns (me: nat, de: nat, d: nat)
    requires MatchAt(s, p).Some?
    ensures YearAt(s, p) && DateSegment(s, p + 5) == Some(me) && DateSegment(s, me + 1) == Some(de)
    ensures de + 1 <= |s| && SplitFileName(s, de + 1) == Some(d)
    ensures MatchAt(s, p) == Some(Captures(s, p, me, de, d))
  {
    me := DateSegment(s, p + 5).value;
    de := DateSegment(s, me + 1).value;
    d := SplitFileName(s, de + 1).value;
  }

  lemma MatchAtSound(s: string, p: nat)
    requires MatchAt(s, p).Some?
    ensures ShapedAt(s, p) && MatchAt(s, p).value.start == p
  {
    var me, de, d := MatchAtParts(s, p);
    SplitFileNameIff(s, de + 1);
    assert Layout(s, p, me - (p + 5), de - (me + 1));
  }

  lemma MatchAtComplete(s: string, p: nat, ml: int, dl: int)
    requires Layout(s, p, ml, dl)
    ensures MatchAt(s, p).Some?
  {
    LayoutSegments(s, p, ml, dl);
    LayoutFileName(s, p, ml, dl);
    MatchAtFrom(s, p, p + 5 + ml, p + 6 + ml + dl);
  }

  lemma LayoutSegments(s: string, p: int, ml: int, dl: int)
    requires Layout(s, p, ml, dl)
    ensures YearAt(s, p) && DateSegment(s, p + 5) == Some(p + 5 + ml)
    ensures DateSegment(s, p + 6 + ml) == Some(p + 6 + ml + dl)
  {
    DateSegmentIff(s, p + 5, ml);
    DateSegmentIff(s, p + 6 + ml, dl);
  }

  lemma LayoutFileName(s: string, p: int, ml: int, dl: int)
    requires Layout(s, p, ml, dl)
    ensures SplitFileName(s, p + 7 + ml + dl).Some?
  {
    SplitFileNameIff(s, p + 7 + ml + dl);
  }

  lemma MatchAtFrom(s: string, p: nat, me: nat, de: nat)
    requires YearAt(s, p) && DateSegment(s, p + 5) == Some(me) && DateSegment(s, me + 1) == Some(de)
    requires SplitFileName(s, de + 1).Some?
    ensures MatchAt(s, p).Some?
  {
  }

  /** The matcher at one position accepts exactly the texts of the pattern's shape. */
  lemma MatchAtIff(s: string, p: nat)
    ensures MatchAt(s, p).Some? <==> ShapedAt(s, p)
    ensures MatchAt(s, p).Some? ==> MatchAt(s, p).value.start == p
  {
    if MatchAt(s, p).Some? {
      MatchAtSound(s, p);
    }
    if ShapedAt(s, p) {
      var ml, dl :| Layout(s, p, ml, dl);
      MatchAtComplete(s, p, ml, dl);
    }
  }

  /** No match can start where fewer than eight characters remain. */
  lemma ShapedNotAtEnd(s: string, q: int)
    requires ShapedAt(s, q)
    ensures 0 <= q < |s|
  {
    var ml, dl :| Layout(s, q, ml, dl);
  }

  // ---------------------------------------------------------------------------
  // What parseImagePath promises
  // ---------------------------------------------------------------------------

  /** A path is parsed exactly when some suffix of it reads `<4 digits>/<1-2 digits>/<1-2 digits>/<name>.<ext>`. */
  lemma ParseIff(path: string)
    ensures ParseImagePath(path).Some? <==> exists p :: ShapedAt(path, p)
  {
    var k := FirstMatchStart(path, 0);
    if exists p :: ShapedAt(path, p) {
      var p :| ShapedAt(path, p);
      ShapedNotAtEnd(path, p);
      MatchAtIff(path, p);
    }
    if k.Some? {
      MatchAtIff(path, k.value);
    }
  }

  lemma Cut(s: string, i: int, j: int)
    requires 0 <= i <= j <= |s|
    ensures s[i..] == s[i..j] + s[j..]
  {
  }

  /** Text from `i` on, cut at the character `c` at `k`. */
  lemma CutAt(s: string, i: int, k: int, c: char)
    requires 0 <= i <= k < |s| && s[k] == c
    ensures s[i..] == s[i..k] + [c] + s[k + 1..]
  {
    Cut(s, i, k);
    Cut(s, k, k + 1);
    assert s[k..k + 1] == [c];
  }

  lemma Assoc(x: string, y: string, z: string)
    ensures x + (y + z) == x + y + z
  {
  }

  /** Text cut at three slashes is its four pieces joined by '/'. */
  lemma CutAtSlashes(s: string, p: int, a: int, b: int, c: int)
    requires 0 <= p < a < b < c < |s| && s[a] == '/' && s[b] == '/' && s[c] == '/'
    ensures s[p..] == s[p..a] + "/" + s[a + 1..b] + "/" + s[b + 1..c] + "/" + s[c + 1..]
  {
    var x, y, z, w := s[p..a], s[a + 1..b], s[b + 1..c], s[c + 1..];
    CutAt(s, p, a, '/');
    CutAt(s, a + 1, b, '/');
    CutAt(s, b + 1, c, '/');
    calc {
      s[p..];
      (x + "/") + ((y + "/") + ((z + "/") + w));
      { Assoc(y + "/", z + "/", w); }
      (x + "/") + (((y + "/") + (z + "/")) + w);
      { Assoc(x + "/", (y + "/") + (z + "/"), w); }
      ((x + "/") + ((y + "/") + (z + "/"))) + w;
      { Assoc(x + "/", y + "/", z + "/"); }
      (((x + "/") + (y + "/")) + (z + "/")) + w;
      { Assoc((x + "/") + (y + "/"), z, "/"); }
      ((((x + "/") + (y + "/")) + z) + "/") + w;
      { Assoc(x + "/", y, "/"); }
      ((((((x + "/") + y) + "/") + z) + "/") + w);
    }
  }

  /** The year, month and day groups of a match at `p`. */
  lemma MatchDateFields(s: string, p: nat)
    requires MatchAt(s, p).Some?
    ensures var m := MatchAt(s, p).value;
      |m.year| == 4 && AllDigits(m.year) &&
      1 <= |m.month| <= 2 && AllDigits(m.month) &&
      1 <= |m.day| <= 2 && AllDigits(m.day)
  {
    var me, de, d := MatchAtParts(s, p);
  }

  /** The name and extension groups of a match at `p` form a file name, and all groups together spell the text from `p` on. */
  lemma MatchSpells(s: string, p: nat)
    requires MatchAt(s, p).Some?
    ensures var m := MatchAt(s, p).value;
      SplitsAt(m.name + "." + m.ext, |m.name|) &&
      s[p..] == m.year + "/" + m.month + "/" + m.day + "/" + (m.name + "." + m.ext)
  {
    var me, de, d := MatchAtParts(s, p);
    CapturesSpell(s, p, me, de, d);
  }

  lemma CapturesSpell(s: string, p: nat, me: nat, de: nat, d: nat)
    requires p + 5 < me < de && de + 1 < d < |s| && s[p + 4] == '/' && s[me] == '/' && s[de] == '/'
    requires TailAt(s, d) && forall k :: de + 1 <= k < d ==> s[k] != '/'
    ensures var m := Captures(s, p, me, de, d);
      SplitsAt(m.name + "." + m.ext, |m.name|) &&
      s[p..] == m.year + "/" + m.month + "/" + m.day + "/" + (m.name + "." + m.ext)
  {
    var m := Captures(s, p, me, de, d);
    CutAt(s, de + 1, d, '.');
    assert s[de + 1..] == m.name + "." + m.ext;
    SplitsAtShift(s, de + 1, d - (de + 1));
    CutAtSlashes(s, p, p + 4, me, de);
  }

  /** `padStart(2, '0')` of one or two digits is two digits ending in them, with a leading '0' when padded. */
  lemma PaddedTwoDigits(raw: string)
    requires 1 <= |raw| <= 2 && AllDigits(raw)
    ensures var r := PadStart2(raw);
      |r| == 2 && AllDigits(r) && r[2 - |raw|..] == raw && (|raw| == 1 ==> r[0] == '0')
  {
  }

  /** The entry built from any captures: two-digit padded month and day, a ten-character date, the raw url. */
  lemma ItemOfFields(m: Match)
    requires |m.year| == 4
    requires 1 <= |m.month| <= 2 && AllDigits(m.month) && 1 <= |m.day| <= 2 && AllDigits(m.day)
    ensures var item := ItemOf(m);
      item.year == m.year && item.filename == m.name + "." + m.ext &&
      |item.month| == 2 && AllDigits(item.month) && item.month[2 - |m.month|..] == m.month &&
      (|m.month| == 1 ==> item.month[0] == '0') &&
      |item.day| == 2 && AllDigits(item.day) && item.day[2 - |m.day|..] == m.day &&
      (|m.day| == 1 ==> item.day[0] == '0') &&
      item.date == item.year + "-" + item.month + "-" + item.day && |item.date| == 10 &&
      item.url == "/api/i/" + m.year + "/" + m.month + "/" + m.day + "/" + item.filename
  {
    PaddedTwoDigits(m.month);
    PaddedTwoDigits(m.day);
  }

  /** The match `parseImagePath` uses starts at the leftmost position where the pattern fits. */
  lemma ParsedLeftmost(path: string)
    requires ParseImagePath(path).Some?
    ensures var m := FirstMatch(path, 0).value;
      m.start < |path| && ShapedAt(path, m.start) && MatchAt(path, m.start) == Some(m) &&
      forall q :: 0 <= q < m.start ==> !ShapedAt(path, q)
  {
    var k := FirstMatchStart(path, 0).value;
    MatchAtIff(path, k);
    forall q | 0 <= q < k ensures !ShapedAt(path, q) { MatchAtIff(path, q); }
  }

  /**
   * On a match, the year is the four digits before the leftmost slash at which the
   * pattern fits, the file name is everything after the day's slash, nothing before
   * the year matters, and the url keeps the month and day as written in the path.
   */
  lemma ParsedSuffix(path: string)
    requires ParseImagePath(path).Some?
    ensures var m := FirstMatch(path, 0).value;
      var item := ParseImagePath(path).value;
      m.start < |path| && ShapedAt(path, m.start) &&
      (forall q :: 0 <= q < m.start ==> !ShapedAt(path, q)) &&
      path[m.start..] == item.year + "/" + m.month + "/" + m.day + "/" + item.filename &&
      |item.year| == 4 && AllDigits(item.year) &&
      1 <= |m.month| <= 2 && AllDigits(m.month) && 1 <= |m.day| <= 2 && AllDigits(m.day) &&
      IsFileName(item.filename) &&
      item.url == "/api/i/" + item.year + "/" + m.month + "/" + m.day + "/" + item.filename
  {
    ParsedLeftmost(path);
    var m := FirstMatch(path, 0).value;
    MatchDateFields(path, m.start);
    MatchSpells(path, m.start);
    ItemOfFields(m);
  }

  /** On a match, month and day are two digits, left-padded with '0', and the date is `YYYY-MM-DD`. */
  lemma ParsedDate(path: string)
    requires ParseImagePath(path).Some?
    ensures var m := FirstMatch(path, 0).value;
      var item := ParseImagePath(path).value;
      |item.month| == 2 && AllDigits(item.month) && item.month[2 - |m.month|..] == m.month &&
      (|m.month| == 1 ==> item.month[0] == '0') &&
      |item.day| == 2 && AllDigits(item.day) && item.day[2 - |m.day|..] == m.day &&
      (|m.day| == 1 ==> item.day[0] == '0') &&
      item.date == item.year + "-" + item.month + "-" + item.day &&
      |item.date| == 10
  {
    ParsedLeftmost(path);
    var m := FirstMatch(path, 0).value;
    MatchDateFields(path, m.start);
    ItemOfFields(m);
  }

  lemma ExampleDateSegments(s: string)
    requires s == "2024/3/5/cat.jpg"
    ensures YearAt(s, 0) && DateSegment(s, 5) == Some(6) && DateSegment(s, 7) == Some(8)
    ensures s[0..4] == "2024" && s[5..6] == "3" && s[7..8] == "5"
  {
    assert s[0..4] == "2024";
  }

  lemma ExampleFileName(s: string)
    requires s == "2024/3/5/cat.jpg"
    ensures SplitFileName(s, 9) == Some(12) && s[9..12] == "cat" && s[13..] == "jpg"
  {
    assert NameEnd(s, 16) == 16;
    assert NameEnd(s, 13) == 16;
    assert NameEnd(s, 9) == 16;
    assert !TailAt(s, 16) && !TailAt(s, 15) && !TailAt(s, 14) && !TailAt(s, 13);
    assert TailAt(s, 12);
  }

  lemma ExampleItem()
    ensures ItemOf(Match(0, "2024", "3", "5", "cat", "jpg")) ==
      MediaItem("/api/i/2024/3/5/cat.jpg", "cat.jpg", "2024", "03", "05", "2024-03-05")
  {
    assert PadStart2("3") == "03" && PadStart2("5") == "05";
    assert "cat" + "." + "jpg" == "cat.jpg";
    assert "/api/i/" + "2024" + "/" == "/api/i/2024/";
    assert "/api/i/2024/" + "3" + "/" == "/api/i/2024/3/";
    assert "/api/i/2024/3/" + "5" + "/" == "/api/i/2024/3/5/";
    assert "/api/i/2024/3/5/" + "cat.jpg" == "/api/i/2024/3/5/cat.jpg";
    assert "2024" + "-" + "03" + "-" + "05" == "2024-03-05";
  }

  /** A one-digit month and day are padded in the date and kept as written in the url. */
  lemma ParseExampleUnpadded()
    ensures ParseImagePath("2024/3/5/cat.jpg") ==
      Some(MediaItem("/api/i/2024/3/5/cat.jpg", "cat.jpg", "2024", "03", "05", "2024-03-05"))
  {
    var s := "2024/3/5/cat.jpg";
    ExampleDateSegments(s);
    ExampleFileName(s);
    assert MatchAt(s, 0) == Some(Match(0, "2024", "3", "5", "cat", "jpg"));
    assert FirstMatchStart(s, 0) == Some(0);
    ExampleItem();
  }

}
