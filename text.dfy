/**
 * String helpers shared by the index builder and the gallery engine:
 * ASCII digits, `padStart(2, '0')`, ASCII `toLowerCase`, `includes`, and
 * lexicographic order on code points. On text without characters beyond
 * U+FFFF that order is the code-unit order of JavaScript's `<` and
 * `Array.prototype.sort()`; on the fixed-width date strings of the manifest
 * `localeCompare` agrees with it too.
 */
module Text {

  predicate IsDigit(c: char) { '0' <= c <= '9' }

  predicate AllDigits(s: string) { forall i :: 0 <= i < |s| ==> IsDigit(s[i]) }

  /** `s.padStart(2, '0')`: left-pads with '0' up to two characters, never truncates. */
  function PadStart2(s: string): (r: string)
    ensures |r| == if |s| >= 2 then |s| else 2
    ensures r[|r| - |s|..] == s
    ensures forall i :: 0 <= i < |r| - |s| ==> r[i] == '0'
  {
    if |s| >= 2 then s else if |s| == 1 then "0" + s else "00"
  }

  function LowerChar(c: char): char
  {
    if 'A' <= c <= 'Z' then (c as int + 32) as char else c
  }

  /** `toLowerCase`, restricted to the ASCII letters. */
  function Lower(s: string): string
  {
    seq(|s|, i requires 0 <= i < |s| => LowerChar(s[i]))
  }

  lemma LowerIdempotent(s: string)
    ensures Lower(Lower(s)) == Lower(s)
    ensures forall i :: 0 <= i < |s| ==> !('A' <= Lower(s)[i] <= 'Z')
  {
  }

  predicate StartsWith(s: string, prefix: string)
  {
    |prefix| <= |s| && s[..|prefix|] == prefix
  }

  /** `s.includes(t)`, scanning the start positions of `s` from the left. */
  predicate Includes(s: string, t: string)
    decreases |s|
  {
    StartsWith(s, t) || (|s| > 0 && Includes(s[1..], t))
  }

  /** `t` occurs in `s` starting at position `i`. */
  predicate OccursAt(s: string, t: string, i: int)
  {
    0 <= i <= |s| - |t| && s[i..i + |t|] == t
  }

  /** `includes` holds exactly when `t` occurs at some position of `s`. */
  lemma {:induction false} IncludesIff(s: string, t: string)
    ensures Includes(s, t) <==> exists i :: OccursAt(s, t, i)
    decreases |s|
  {
    if Includes(s, t) {
      if StartsWith(s, t) {
        assert OccursAt(s, t, 0);
      } else {
        IncludesIff(s[1..], t);
        var i :| OccursAt(s[1..], t, i);
        assert s[1..][i..i + |t|] == s[i + 1..i + 1 + |t|];
        assert OccursAt(s, t, i + 1);
      }
    }
    if exists i :: OccursAt(s, t, i) {
      var i :| OccursAt(s, t, i);
      if i > 0 {
        assert s[1..][i - 1..i - 1 + |t|] == s[i..i + |t|];
        assert OccursAt(s[1..], t, i - 1);
        IncludesIff(s[1..], t);
      } else {
        assert StartsWith(s, t);
      }
    }
  }

  /** Every string includes the empty string (so an empty search never excludes). */
  lemma IncludesEmpty(s: string)
    ensures Includes(s, "")
  {
    assert StartsWith(s, "");
  }

  // ---------------------------------------------------------------------------
  // Code-unit (lexicographic) order on strings
  // ---------------------------------------------------------------------------

  /** `a <= b` in JavaScript's string order: the first differing character decides, a prefix comes first. */
  predicate LexLe(a: string, b: string)
    decreases |a|
  {
    |a| == 0 || (|b| > 0 && (a[0] < b[0] || (a[0] == b[0] && LexLe(a[1..], b[1..]))))
  }

  predicate LexLt(a: string, b: string) { !LexLe(b, a) }

  lemma {:induction false} LexLeRefl(a: string)
    ensures LexLe(a, a)
    decreases |a|
  {
    if |a| > 0 { LexLeRefl(a[1..]); }
  }

  lemma {:induction false} LexLeTotal(a: string, b: string)
    ensures LexLe(a, b) || LexLe(b, a)
    decreases |a|
  {
    if |a| > 0 && |b| > 0 && a[0] == b[0] { LexLeTotal(a[1..], b[1..]); }
  }

  lemma {:induction false} LexLeAntisym(a: string, b: string)
    requires LexLe(a, b) && LexLe(b, a)
    ensures a == b
    decreases |a|
  {
    if |a| > 0 {
      LexLeAntisym(a[1..], b[1..]);
      assert a == [a[0]] + a[1..] && b == [b[0]] + b[1..];
    }
  }

  lemma {:induction false} LexLeTrans(a: string, b: string, c: string)
    requires LexLe(a, b) && LexLe(b, c)
    ensures LexLe(a, c)
    decreases |a|
  {
    if |a| > 0 && a[0] == b[0] && b[0] == c[0] { LexLeTrans(a[1..], b[1..], c[1..]); }
  }

  /** Strict order: `LexLt` is `LexLe` without equality. */
  lemma LexLtIff(a: string, b: string)
    ensures LexLt(a, b) <==> LexLe(a, b) && a != b
  {
    LexLeTotal(a, b);
    LexLeRefl(a);
    if LexLe(a, b) && LexLe(b, a) { LexLeAntisym(a, b); }
  }

  // ---------------------------------------------------------------------------
  // Sorting the distinct keys of a set: `[...keys].sort()`
  // ---------------------------------------------------------------------------

  /** Strictly increasing, hence also free of duplicates. */
  predicate Ascending(s: seq<string>)
  {
    forall i, j :: 0 <= i < j < |s| ==> LexLt(s[i], s[j])
  }

  /** Strictly decreasing. */
  predicate Descending(s: seq<string>)
  {
    forall i, j :: 0 <= i < j < |s| ==> LexLt(s[j], s[i])
  }

  predicate IsLeast(m: string, s: set<string>)
  {
    m in s && forall x :: x in s ==> LexLe(m, x)
  }

  lemma {:induction false} LeastExists(s: set<string>)
    requires s != {}
    ensures exists m :: IsLeast(m, s)
    decreases |s|
  {
    var x :| x in s;
    var rest := s - {x};
    if rest == {} {
      LexLeRefl(x);
      assert s == {x};
      assert IsLeast(x, s);
    } else {
      LeastExists(rest);
      var m :| IsLeast(m, rest);
      LexLeTotal(x, m);
      if LexLe(m, x) {
        assert IsLeast(m, s);
      } else {
        LexLeRefl(x);
        forall y | y in s ensures LexLe(x, y) {
          if y != x { LexLeTrans(x, m, y); }
        }
        assert IsLeast(x, s);
      }
    }
  }

  lemma LeastBelowOthers(m: string, s: set<string>)
    requires IsLeast(m, s)
    ensures forall x :: x in s - {m} ==> LexLt(m, x)
  {
    forall x | x in s - {m} ensures LexLt(m, x) { LexLtIff(m, x); }
  }

  /** The keys of `s` in ascending order, each once: what `.sort()` yields for distinct keys. */
  ghost function SortedKeys(s: set<string>): (r: seq<string>)
    ensures Ascending(r) && |r| == |s|
    ensures forall x :: x in r <==> x in s
    decreases |s|
  {
    if s == {} then []
    else
      LeastExists(s);
      var m :| IsLeast(m, s);
      LeastBelowOthers(m, s);
      [m] + SortedKeys(s - {m})
  }

  /** An ascending sequence is determined by its elements. */
  lemma {:induction false} AscendingUnique(a: seq<string>, b: seq<string>)
    requires Ascending(a) && Ascending(b)
    requires forall x :: x in a <==> x in b
    ensures a == b
    decreases |a|
  {
    if a != [] { assert a[0] in b; }
    if b != [] { assert b[0] in a; }
    if a != [] && b != [] {
      if a[0] != b[0] {
        var i :| 0 <= i < |b| && b[i] == a[0];
        var j :| 0 <= j < |a| && a[j] == b[0];
        assert LexLt(b[0], a[0]) && LexLt(a[0], b[0]);
        LexLeTotal(a[0], b[0]);
        assert false;
      }
      forall x ensures x in a[1..] <==> x in b[1..] {
        if x in a[1..] {
          var i :| 1 <= i < |a| && a[i] == x;
          LexLtIff(a[0], x);
          assert x in a && x in b;
          var j :| 0 <= j < |b| && b[j] == x;
          assert j != 0;
          assert b[1..][j - 1] == x;
        }
        if x in b[1..] {
          var i :| 1 <= i < |b| && b[i] == x;
          LexLtIff(b[0], x);
          assert x in b && x in a;
          var j :| 0 <= j < |a| && a[j] == x;
          assert j != 0;
          assert a[1..][j - 1] == x;
        }
      }
      AscendingUnique(a[1..], b[1..]);
      assert a == [a[0]] + a[1..] && b == [b[0]] + b[1..];
    }
  }

  /** The least key of a non-empty set, found by one pass over it. */
  method LeastOf(s: set<string>) returns (m: string)
    requires s != {}
    ensures IsLeast(m, s)
  {
    m :| m in s;
    LexLeRefl(m);
    var pool := s - {m};
    while pool != {}
      invariant pool <= s && m in s
      invariant forall x :: x in s && x !in pool ==> LexLe(m, x)
      decreases |pool|
    {
      var x :| x in pool;
      if !LexLe(m, x) {
        LexLeTotal(m, x);
        LexLeRefl(x);
        forall y | y in s && y !in pool ensures LexLe(x, y) { LexLeTrans(x, m, y); }
        m := x;
      }
      pool := pool - {x};
    }
  }

  /** `[...s].sort()` for a set of distinct string keys. */
  method SortKeys(s: set<string>) returns (r: seq<string>)
    ensures r == SortedKeys(s)
  {
    r := [];
    var rest := s;
    while rest != {}
      invariant rest <= s
      invariant Ascending(r)
      invariant forall x :: x in r <==> x in s && x !in rest
      invariant forall i, y :: 0 <= i < |r| && y in rest ==> LexLt(r[i], y)
      decreases |rest|
    {
      var m := LeastOf(rest);
      LeastBelowOthers(m, rest);
      r, rest := r + [m], rest - {m};
    }
    AscendingUnique(r, SortedKeys(s));
  }

  /** `.reverse()` as a value. */
  function Reversed<T>(s: seq<T>): (r: seq<T>)
  {
    seq(|s|, i requires 0 <= i < |s| => s[|s| - 1 - i])
  }

  /** Reversing an ascending key list gives the strictly descending one (`.sort().reverse()`). */
  lemma ReversedAscending(s: seq<string>)
    requires Ascending(s)
    ensures Descending(Reversed(s)) && |Reversed(s)| == |s|
    ensures forall x :: x in Reversed(s) <==> x in s
  {
    var r := Reversed(s);
    forall x ensures x in r <==> x in s {
      if x in s {
        var i :| 0 <= i < |s| && s[i] == x;
        assert r[|s| - 1 - i] == x;
      }
    }
  }

}
