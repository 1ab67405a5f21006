/**
 * The Python 2 `str` operations that bibcloud.py relies on, over `string`
 * (= `seq<char>`): `find`, slicing with negative bounds, `split` on one
 * character, whitespace `split()`, `strip`, `replace`, `join`, and the
 * `sorted(set(...))` idiom over byte-wise string order.
 */
module Strings {

  /** `p` occurs in `s` starting at index `i`. */
  predicate OccursAt(s: string, p: string, i: int) {
    0 <= i && i + |p| <= |s| && s[i..i + |p|] == p
  }

  /** `p` is a substring of `s` (Python's `p in s`). */
  predicate Contains(s: string, p: string) {
    exists i :: 0 <= i <= |s| && OccursAt(s, p, i)
  }

  predicate StartsWith(s: string, p: string) {
    |p| <= |s| && s[..|p|] == p
  }

  /** Python's `s.find(p)`: the least index where `p` occurs, or -1. */
  function Find(s: string, p: string): (r: int)
    ensures -1 <= r <= |s|
    ensures r >= 0 ==> r + |p| <= |s| && OccursAt(s, p, r)
    ensures r >= 0 ==> forall j :: 0 <= j < r ==> !OccursAt(s, p, j)
    ensures r == -1 <==> !Contains(s, p)
    decreases |s|
  {
    if StartsWith(s, p) then
      assert OccursAt(s, p, 0);
      0
    else if |s| == 0 then
      -1
    else
      var k := Find(s[1..], p);
      assert !OccursAt(s, p, 0);
      OccursShift(s, p);
      if k < 0 then -1 else k + 1
  }

  /** An occurrence at `j + 1` in `s` is an occurrence at `j` in `s[1..]`. */
  lemma OccursShift(s: string, p: string)
    requires |s| > 0
    ensures forall j :: 1 <= j ==> (OccursAt(s, p, j) <==> OccursAt(s[1..], p, j - 1))
  {
    forall j | 1 <= j
      ensures OccursAt(s, p, j) <==> OccursAt(s[1..], p, j - 1)
    {
      if j + |p| <= |s| {
        assert s[1..][j - 1..j - 1 + |p|] == s[j..j + |p|];
      }
    }
  }

  /** The index `Find` returns is characterised by its two properties. */
  lemma FindIs(s: string, p: string, k: int)
    requires OccursAt(s, p, k)
    requires forall j :: 0 <= j < k ==> !OccursAt(s, p, j)
    ensures Find(s, p) == k
  {
  }

  /** Python's `s.find(p, start)` for `0 <= start`. */
  function FindFrom(s: string, p: string, start: nat): (r: int)
    ensures r == -1 || (start <= r && OccursAt(s, p, r))
    ensures r >= 0 ==> forall j :: start <= j < r ==> !OccursAt(s, p, j)
    ensures r == -1 ==> forall j :: start <= j ==> !OccursAt(s, p, j)
  {
    if start > |s| then
      -1
    else
      var k := Find(s[start..], p);
      OccursFrom(s, p, start);
      if k < 0 then -1 else start + k
  }

  lemma OccursFrom(s: string, p: string, start: nat)
    requires start <= |s|
    ensures forall j :: start <= j ==> (OccursAt(s, p, j) <==> OccursAt(s[start..], p, j - start))
  {
    forall j | start <= j
      ensures OccursAt(s, p, j) <==> OccursAt(s[start..], p, j - start)
    {
      if j + |p| <= |s| {
        assert s[start..][j - start..j - start + |p|] == s[j..j + |p|];
      }
    }
  }

  /** Python's slice `s[lo:hi]`: negative bounds count from the end, then both are clamped. */
  function PySlice(s: string, lo: int, hi: int): (r: string)
    ensures |r| <= |s|
    ensures 0 <= lo <= hi <= |s| ==> r == s[lo..hi]
    ensures 0 <= lo && hi == -1 && lo < |s| ==> r == s[lo..|s| - 1]
  {
    var a := Clamp(if lo < 0 then |s| + lo else lo, |s|);
    var b := Clamp(if hi < 0 then |s| + hi else hi, |s|);
    if a < b then s[a..b] else ""
  }

  function Clamp(i: int, n: nat): (r: nat)
    ensures r <= n
    ensures 0 <= i <= n ==> r == i
  {
    if i < 0 then 0 else if i > n then n else i
  }

  /** `sep.join(parts)`. */
  function Join(parts: seq<string>, sep: string): string
  {
    if |parts| == 0 then ""
    else if |parts| == 1 then parts[0]
    else parts[0] + sep + Join(parts[1..], sep)
  }

  lemma JoinSnoc(parts: seq<string>, last: string, sep: string)
    requires |parts| > 0
    ensures Join(parts + [last], sep) == Join(parts, sep) + sep + last
  {
    if |parts| == 1 {
      assert parts + [last] == [parts[0], last];
    } else {
      assert (parts + [last])[1..] == parts[1..] + [last];
      JoinSnoc(parts[1..], last, sep);
    }
  }

  /** Python's `s.split(c)` for a one-character separator. */
  function Split(s: string, c: char): (r: seq<string>)
    ensures |r| >= 1
    ensures forall i :: 0 <= i < |r| ==> c !in r[i]
    ensures Join(r, [c]) == s
    ensures c !in s ==> r == [s]
    decreases |s|
  {
    if |s| == 0 then
      [""]
    else
      var rest := Split(s[1..], c);
      assert s == [s[0]] + s[1..];
      if s[0] == c then
        JoinEmptyFirst(rest, [c]);
        [""] + rest
      else
        var r := [[s[0]] + rest[0]] + rest[1..];
        SplitGlue(s[0], c, rest, r);
        r
  }

  /** An empty first part contributes only its separator. */
  lemma JoinEmptyFirst(rest: seq<string>, sep: string)
    requires |rest| > 0
    ensures Join([""] + rest, sep) == sep + Join(rest, sep)
  {
    assert ([""] + rest)[1..] == rest;
  }

  /** A character other than the separator joins the first part. */
  lemma SplitGlue(ch: char, c: char, rest: seq<string>, r: seq<string>)
    requires ch != c && |rest| >= 1 && r == [[ch] + rest[0]] + rest[1..]
    requires forall i :: 0 <= i < |rest| ==> c !in rest[i]
    ensures |r| >= 1
    ensures forall i :: 0 <= i < |r| ==> c !in r[i]
    ensures Join(r, [c]) == [ch] + Join(rest, [c])
  {
    assert r[1..] == rest[1..];
    assert forall i :: 1 <= i < |r| ==> r[i] == rest[i];
    if |rest| > 1 {
      var tail := Join(rest[1..], [c]);
      assert Join(r, [c]) == [ch] + rest[0] + [c] + tail;
      assert Join(rest, [c]) == rest[0] + [c] + tail;
      AppendAssoc4([ch], rest[0], [c], tail);
    }
  }

  /** The first part of a split is the text before the first separator. */
  lemma SplitHead(s: string, c: char)
    requires c in s
    ensures var r := Split(s, c);
      |r| >= 2 && s == r[0] + [c] + Join(r[1..], [c])
  {
  }

  /** A joined sequence starts with its first part. */
  lemma JoinStart(parts: seq<string>, sep: string)
    requires |parts| >= 1
    ensures StartsWith(Join(parts, sep), parts[0])
  {
    if |parts| > 1 {
      assert Join(parts, sep) == parts[0] + (sep + Join(parts[1..], sep));
    } else {
      assert Join(parts, sep) == parts[0];
    }
  }

  /** The whitespace characters of Python 2's `str.split()` and `str.strip()`. */
  predicate IsSpace(ch: char) {
    ch == ' ' || ch == '\t' || ch == '\n' || ch == '\r' || ch == '\U{000B}' || ch == '\U{000C}'
  }

  predicate NoSpace(s: string) {
    forall i :: 0 <= i < |s| ==> !IsSpace(s[i])
  }

  /** The characters of `s` that are not whitespace, in order. */
  function Squeeze(s: string): (r: string)
    ensures NoSpace(r)
  {
    if |s| == 0 then "" else (if IsSpace(s[0]) then "" else [s[0]]) + Squeeze(s[1..])
  }

  function Concat(ss: seq<string>): string
  {
    if |ss| == 0 then "" else ss[0] + Concat(ss[1..])
  }

  /** Python 2's `s.split()`, cutting at every whitespace character (see `WordsAreRuns`). */
  function Words(s: string): seq<string>
    decreases |s|, 0
  {
    if |s| == 0 then
      []
    else
      var rest := Words(s[1..]);
      if IsSpace(s[0]) then
        rest
      else if |s| > 1 && !IsSpace(s[1]) then
        // s[1] starts the first word of the rest, so s[0] joins that word
        WordsNonSpaceStart(s[1..]);
        [[s[0]] + rest[0]] + rest[1..]
      else
        [[s[0]]] + rest
  }

  /** The words are non-empty and free of whitespace, and together they are the non-whitespace characters of `s`. */
  lemma {:induction false} WordsSpec(s: string)
    ensures forall i :: 0 <= i < |Words(s)| ==> Words(s)[i] != "" && NoSpace(Words(s)[i])
    ensures Concat(Words(s)) == Squeeze(s)
    decreases |s|
  {
    if |s| > 0 {
      var rest := Words(s[1..]);
      WordsSpec(s[1..]);
      if IsSpace(s[0]) {
      } else if |s| > 1 && !IsSpace(s[1]) {
        WordsNonSpaceStart(s[1..]);
        GlueFirst(s[0], rest, Words(s));
      } else {
        ConsWord([s[0]], rest, Words(s));
      }
    }
  }

  /** Concatenating a word in front. */
  lemma ConsWord(w: string, rest: seq<string>, r: seq<string>)
    requires w != "" && NoSpace(w) && r == [w] + rest
    requires forall i :: 0 <= i < |rest| ==> rest[i] != "" && NoSpace(rest[i])
    ensures forall i :: 0 <= i < |r| ==> r[i] != "" && NoSpace(r[i])
    ensures Concat(r) == w + Concat(rest)
  {
    assert r[1..] == rest;
    assert forall i :: 1 <= i < |r| ==> r[i] == rest[i - 1];
  }

  /** A character glued to the front of the first word keeps the words non-empty and space-free. */
  lemma GlueFirst(c: char, rest: seq<string>, r: seq<string>)
    requires |rest| > 0 && !IsSpace(c) && r == [[c] + rest[0]] + rest[1..]
    requires forall i :: 0 <= i < |rest| ==> rest[i] != "" && NoSpace(rest[i])
    ensures forall i :: 0 <= i < |r| ==> r[i] != "" && NoSpace(r[i])
    ensures Concat(r) == [c] + Concat(rest)
  {
    assert r[1..] == rest[1..];
    assert forall i :: 1 <= i < |r| ==> r[i] == rest[i];
    assert Concat(rest) == rest[0] + Concat(rest[1..]);
    AppendAssoc([c], rest[0], Concat(rest[1..]));
  }

  lemma WordsNonSpaceStart(s: string)
    requires |s| > 0 && !IsSpace(s[0])
    ensures |Words(s)| > 0 && |Words(s)[0]| > 0 && Words(s)[0][0] == s[0]
    decreases |s|, 1
  {
    var rest := Words(s[1..]);
    if |s| > 1 && !IsSpace(s[1]) {
      WordsNonSpaceStart(s[1..]);
    }
  }

  /** The length of the longest prefix of `s` without whitespace. */
  function RunLength(s: string): (j: nat)
    ensures j <= |s| && NoSpace(s[..j])
    ensures j == |s| || IsSpace(s[j])
    ensures |s| > 0 && !IsSpace(s[0]) ==> j >= 1
    decreases |s|
  {
    if |s| == 0 || IsSpace(s[0]) then
      0
    else
      var k := RunLength(s[1..]);
      assert s[..k + 1] == [s[0]] + s[1..][..k];
      k + 1
  }

  /**
   * The maximal runs of non-whitespace characters of `s`, from the left:
   * whitespace is skipped, then the longest whitespace-free prefix is a word.
   */
  function Runs(s: string): seq<string>
    decreases |s|
  {
    if |s| == 0 then []
    else if IsSpace(s[0]) then Runs(s[1..])
    else
      var j := RunLength(s);
      [s[..j]] + Runs(s[j..])
  }

  /** `s.split()` cuts exactly at whitespace: its words are the maximal runs of `s`, in order. */
  lemma {:induction false} WordsAreRuns(s: string)
    ensures Words(s) == Runs(s)
    decreases |s|
  {
    if |s| > 0 {
      var t := s[1..];
      WordsAreRuns(t);
      if !IsSpace(s[0]) {
        var j := RunLength(s);
        if |s| > 1 && !IsSpace(s[1]) {
          var k := RunLength(t);
          var rest := Words(t);
          assert j == k + 1;
          assert rest == [t[..k]] + Runs(t[k..]);
          assert rest[0] == t[..k] && rest[1..] == Runs(t[k..]);
          assert t[k..] == s[j..];
          assert [s[0]] + t[..k] == s[..j];
        } else {
          assert j == 1;
          assert s[..j] == [s[0]];
        }
      }
    }
  }

  /** A character absent from `s` is absent from each of its words. */
  lemma {:induction false} WordsAvoid(s: string, c: char)
    requires c !in s
    ensures forall i :: 0 <= i < |Words(s)| ==> c !in Words(s)[i]
    decreases |s|
  {
    if |s| > 0 {
      var t := s[1..];
      assert c !in t by {
        assert s == [s[0]] + t;
      }
      WordsAvoid(t, c);
      var rest := Words(t);
      if !IsSpace(s[0]) {
        assert c != s[0];
        if |s| > 1 && !IsSpace(s[1]) {
          WordsNonSpaceStart(t);
          assert forall i :: 1 <= i < |Words(s)| ==> Words(s)[i] == rest[i];
          assert c !in [s[0]] + rest[0];
        } else {
          assert forall i :: 1 <= i < |Words(s)| ==> Words(s)[i] == rest[i - 1];
        }
      }
    }
  }

  /** Python's `s.strip(chars)` where `drop` says which characters are stripped. */
  function Strip(s: string, drop: char -> bool): (r: string)
    ensures exists i, j ::
              && 0 <= i <= j <= |s| && r == s[i..j]
              && (forall k :: 0 <= k < i ==> drop(s[k]))
              && (forall k :: j <= k < |s| ==> drop(s[k]))
    ensures r == "" || (!drop(r[0]) && !drop(r[|r| - 1]))
  {
    var i := StripFrom(s, 0, drop);
    var j := StripTo(s, i, |s|, drop);
    assert j > i ==> s[i..j][0] == s[i] && s[i..j][j - i - 1] == s[j - 1];
    s[i..j]
  }

  /** The first index from `lo` on whose character is kept (`|s|` when there is none). */
  function StripFrom(s: string, lo: nat, drop: char -> bool): (i: nat)
    requires lo <= |s|
    ensures lo <= i <= |s|
    ensures forall k :: lo <= k < i ==> drop(s[k])
    ensures i == |s| || !drop(s[i])
    decreases |s| - lo
  {
    if lo < |s| && drop(s[lo]) then StripFrom(s, lo + 1, drop) else lo
  }

  /** The end of the text in `s[lo..hi]` once trailing dropped characters are removed. */
  function StripTo(s: string, lo: nat, hi: nat, drop: char -> bool): (j: nat)
    requires lo <= hi <= |s|
    ensures lo <= j <= hi
    ensures forall k :: j <= k < hi ==> drop(s[k])
    ensures j == lo || !drop(s[j - 1])
    decreases hi
  {
    if hi > lo && drop(s[hi - 1]) then StripTo(s, lo, hi - 1, drop) else hi
  }

  /** Python's `s.replace(pat, rep)`: every non-overlapping occurrence, scanning left to right. */
  function Replace(s: string, pat: string, rep: string): (r: string)
    requires pat != ""
    decreases |s|
  {
    if |s| < |pat| then s
    else if StartsWith(s, pat) then rep + Replace(s[|pat|..], pat, rep)
    else [s[0]] + Replace(s[1..], pat, rep)
  }

  /** Number of occurrences of the character `ch` in `s`. */
  function Count(s: string, ch: char): (n: nat)
    ensures n <= |s|
    ensures n == 0 <==> ch !in s
  {
    if |s| == 0 then 0 else (if s[0] == ch then 1 else 0) + Count(s[1..], ch)
  }

  /** A pattern that does not occur is not replaced. */
  lemma ReplaceAbsent(s: string, pat: string, rep: string)
    requires pat != "" && !Contains(s, pat)
    ensures Replace(s, pat, rep) == s
    decreases |s|
  {
    if |s| >= |pat| {
      assert !OccursAt(s, pat, 0);
      OccursShift(s, pat);
      forall i | 0 <= i <= |s[1..]| ensures !OccursAt(s[1..], pat, i) {
        assert !OccursAt(s, pat, i + 1);
      }
      ReplaceAbsent(s[1..], pat, rep);
      assert s == [s[0]] + s[1..];
    }
  }

  /** Removing a pattern never lengthens a string, and shortens it when the pattern occurs. */
  lemma RemoveShrinks(s: string, pat: string)
    requires pat != ""
    ensures |Replace(s, pat, "")| <= |s|
    ensures Contains(s, pat) ==> |Replace(s, pat, "")| < |s|
    decreases |s|
  {
    if |s| >= |pat| {
      if StartsWith(s, pat) {
        RemoveShrinks(s[|pat|..], pat);
      } else {
        OccursShift(s, pat);
        RemoveShrinks(s[1..], pat);
      }
    }
  }

  /** Replacing one character distributes over concatenation. */
  lemma ReplaceCharAppend(a: string, b: string, ch: char, rep: string)
    ensures Replace(a + b, [ch], rep) == Replace(a, [ch], rep) + Replace(b, [ch], rep)
    decreases |a|
  {
    if |a| > 0 {
      assert (a + b)[1..] == a[1..] + b;
      ReplaceCharAppend(a[1..], b, ch, rep);
    } else {
      assert a + b == b;
    }
  }

  /** Replacing one character by two adds one character per occurrence. */
  lemma ReplaceCharLength(s: string, ch: char, rep: string)
    requires |rep| == 2
    ensures |Replace(s, [ch], rep)| == |s| + Count(s, ch)
    decreases |s|
  {
    if |s| > 0 {
      ReplaceCharLength(s[1..], ch, rep);
    }
  }

  /** Every `&` is directly preceded by a backslash. */
  predicate AmpersandsEscaped(s: string) {
    forall i :: 0 <= i < |s| && s[i] == '&' ==> 0 < i && s[i - 1] == '\\'
  }

  lemma AmpersandsEscapedAppend(a: string, b: string)
    requires AmpersandsEscaped(a) && AmpersandsEscaped(b)
    ensures AmpersandsEscaped(a + b)
  {
    forall i | 0 <= i < |a + b| && (a + b)[i] == '&'
      ensures 0 < i && (a + b)[i - 1] == '\\'
    {
      if i >= |a| {
        assert b[i - |a|] == '&';
      }
    }
  }

  /** After `s.replace("&", rep)` with a `rep` whose ampersands are escaped, so are all of them. */
  lemma {:induction false} ReplaceAmpersandEscapes(s: string, rep: string)
    requires AmpersandsEscaped(rep)
    ensures AmpersandsEscaped(Replace(s, "&", rep))
    decreases |s|
  {
    if |s| > 0 {
      ReplaceAmpersandEscapes(s[1..], rep);
      if s[0] == '&' {
        assert StartsWith(s, "&");
        AmpersandsEscapedAppend(rep, Replace(s[1..], "&", rep));
      } else {
        assert !StartsWith(s, "&");
        AmpersandsEscapedAppend([s[0]], Replace(s[1..], "&", rep));
      }
    }
  }

  /** Python 2's byte-wise string order `a < b`. */
  predicate Below(a: string, b: string)
    decreases |a|
  {
    |b| > 0 && (|a| == 0 || a[0] < b[0] || (a[0] == b[0] && Below(a[1..], b[1..])))
  }

  lemma BelowIrreflexive(a: string)
    ensures !Below(a, a)
  {
  }

  lemma BelowTransitive(a: string, b: string, c: string)
    requires Below(a, b) && Below(b, c)
    ensures Below(a, c)
    decreases |a|
  {
    if |a| > 0 && a[0] == b[0] && b[0] == c[0] {
      BelowTransitive(a[1..], b[1..], c[1..]);
    }
  }

  lemma BelowTotal(a: string, b: string)
    requires a != b
    ensures Below(a, b) || Below(b, a)
    decreases |a|
  {
    if |a| > 0 && |b| > 0 && a[0] == b[0] {
      assert a == [a[0]] + a[1..] && b == [b[0]] + b[1..];
      BelowTotal(a[1..], b[1..]);
    }
  }

  lemma BelowAsymmetric(a: string, b: string)
    requires Below(a, b)
    ensures !Below(b, a)
    decreases |a|
  {
    if |a| > 0 && a[0] == b[0] {
      BelowAsymmetric(a[1..], b[1..]);
    }
  }

  /** Strictly increasing, hence also free of duplicates. */
  predicate StrictlySorted(s: seq<string>) {
    forall i, j :: 0 <= i < j < |s| ==> Below(s[i], s[j])
  }

  /** Inserts `x` into a strictly sorted list unless it is already there. */
  function Insert(x: string, s: seq<string>): (r: seq<string>)
    requires StrictlySorted(s)
    ensures StrictlySorted(r)
    ensures forall y :: y in r <==> y == x || y in s
    decreases |s|
  {
    if |s| == 0 then
      [x]
    else if x == s[0] then
      s
    else if Below(x, s[0]) then
      assert forall j :: 0 < j < |s| ==> Below(s[0], s[j]);
      assert forall j :: 0 <= j < |s| ==> Below(x, s[j]) by {
        forall j | 0 < j < |s| ensures Below(x, s[j]) { BelowTransitive(x, s[0], s[j]); }
      }
      [x] + s
    else
      BelowTotal(x, s[0]);
      var t := Insert(x, s[1..]);
      assert forall y :: y in t ==> Below(s[0], y) by {
        forall y | y in t ensures Below(s[0], y) {
          if y != x {
            var j :| 0 <= j < |s[1..]| && s[1..][j] == y;
            assert s[j + 1] == y;
          }
        }
      }
      var r := [s[0]] + t;
      assert forall i :: 1 <= i < |r| ==> r[i] == t[i - 1];
      assert forall y :: y in s <==> y == s[0] || y in s[1..] by {
        assert s == [s[0]] + s[1..];
      }
      r
  }

  /** `sorted(set(xs))`. */
  function SortedSet(xs: seq<string>): (r: seq<string>)
    ensures StrictlySorted(r)
    ensures forall y :: y in r <==> y in xs
  {
    if |xs| == 0 then [] else Insert(xs[|xs| - 1], SortedSet(xs[..|xs| - 1]))
  }

  /** A strictly sorted list is determined by its elements. */
  lemma {:induction false} SortedUnique(a: seq<string>, b: seq<string>)
    requires StrictlySorted(a) && StrictlySorted(b)
    requires forall y :: y in a <==> y in b
    ensures a == b
    decreases |a| + |b|, if |a| == 0 then 1 else 0
  {
    if |a| == 0 {
      if |b| > 0 {
        SortedUnique(b, a);
      }
    } else {
      assert a[0] in b;
      assert |b| > 0;
      if a[0] != b[0] {
        var k :| 0 <= k < |b| && b[k] == a[0];
        assert b[0] in a;
        var m :| 0 <= m < |a| && a[m] == b[0];
        assert Below(b[0], a[0]);
        assert Below(a[0], b[0]);
        BelowAsymmetric(a[0], b[0]);
        assert false;
      }
      assert a == [a[0]] + a[1..] && b == [b[0]] + b[1..];
      forall y ensures y in a[1..] <==> y in b[1..] {
        if y in a[1..] {
          var i :| 0 <= i < |a[1..]| && a[1..][i] == y;
          assert Below(a[0], a[i + 1]);
          BelowIrreflexive(a[0]);
          assert y in b && y != b[0];
        }
        if y in b[1..] {
          var i :| 0 <= i < |b[1..]| && b[1..][i] == y;
          assert Below(b[0], b[i + 1]);
          BelowIrreflexive(b[0]);
          assert y in a && y != a[0];
        }
      }
      SortedUnique(a[1..], b[1..]);
      assert a == [a[0]] + a[1..] && b == [b[0]] + b[1..];
    }
  }

  /** `find` of a single character: the first position holding it, or -1 when absent. */
  lemma FindChar(s: string, ch: char)
    ensures Find(s, [ch]) == -1 <==> ch !in s
    ensures Find(s, [ch]) >= 0 ==> s[Find(s, [ch])] == ch && ch !in s[..Find(s, [ch])]
  {
    var y := Find(s, [ch]);
    if y >= 0 {
      assert OccursAt(s, [ch], y);
      assert s[y..y + 1][0] == s[y] == ch;
      forall j | 0 <= j < y ensures s[..y][j] != ch {
        assert !OccursAt(s, [ch], j);
      }
    }
  }

  /** `find` of a single character from `start`. */
  lemma FindFromChar(s: string, ch: char, start: nat)
    requires start <= |s|
    ensures FindFrom(s, [ch], start) == -1 <==> ch !in s[start..]
    ensures FindFrom(s, [ch], start) >= 0 ==>
              var z := FindFrom(s, [ch], start);
              start <= z < |s| && s[z] == ch && ch !in s[start..z]
  {
    var z := FindFrom(s, [ch], start);
    if z >= 0 {
      assert OccursAt(s, [ch], z);
      assert s[z..z + 1][0] == s[z] == ch;
      assert s[start..][z - start] == ch;
      forall j | start <= j < z ensures s[j] != ch {
        assert !OccursAt(s, [ch], j);
      }
      assert forall j :: 0 <= j < z - start ==> s[start..z][j] == s[start + j];
    }
    if ch in s[start..] {
      var j :| 0 <= j < |s[start..]| && s[start..][j] == ch;
      assert s[start + j..start + j + 1] == [ch];
      assert OccursAt(s, [ch], start + j);
    }
  }

  /** A split on `c` has one more part than `s` has occurrences of `c`. */
  lemma {:induction false} SplitCount(s: string, c: char)
    ensures |Split(s, c)| == Count(s, c) + 1
    decreases |s|
  {
    if |s| > 0 {
      SplitCount(s[1..], c);
    }
  }

  /** Concatenation is associative. */
  lemma AppendAssoc<T>(a: seq<T>, b: seq<T>, c: seq<T>)
    ensures a + b + c == a + (b + c)
  {
  }

  /** Slicing a sequence extended by one element. */
  lemma SliceSnoc<T>(s: seq<T>, a: T, k: nat)
    requires k <= |s|
    ensures (s + [a])[k..] == s[k..] + [a]
    ensures (s + [a])[..k] == s[..k]
  {
  }

  /** An occurrence that ends by `k` is one in the prefix of length `k` as well. */
  lemma OccursInPrefix(s: string, p: string, k: nat, j: int)
    requires k <= |s| && 0 <= j && j + |p| <= k
    ensures OccursAt(s[..k], p, j) <==> OccursAt(s, p, j)
  {
    assert s[..k][j..j + |p|] == s[j..j + |p|];
  }

  /** A character missing from a prefix is missing from every shorter prefix. */
  lemma CharNotInPrefix(s: string, c: char, a: nat, b: nat)
    requires a <= b <= |s| && c !in s[..b]
    ensures c !in s[..a]
  {
    forall i | 0 <= i < a ensures s[..a][i] != c {
      assert s[..a][i] == s[..b][i];
    }
  }

  /** No `c` before position `k` when `find` puts the first `c` at or after `k`, or finds none. */
  lemma CharAbsentBefore(s: string, c: char, k: nat)
    requires k <= |s| && (Find(s, [c]) < 0 || k <= Find(s, [c]))
    ensures c !in s[..k]
  {
    FindChar(s, c);
    if Find(s, [c]) >= 0 {
      CharNotInPrefix(s, c, k, Find(s, [c]));
    } else {
      assert s[..|s|] == s;
      CharNotInPrefix(s, c, k, |s|);
    }
  }

  /** A sequence cut at `k` and put back together. */
  lemma SplitAt<T>(s: seq<T>, k: nat)
    requires k <= |s|
    ensures s[..k] + s[k..] == s
  {
  }

  /** A sequence cut around its element at `k`. */
  lemma SplitAround<T>(s: seq<T>, k: nat)
    requires k < |s|
    ensures s == s[..k] + ([s[k]] + s[k + 1..])
  {
  }

  /** Four pieces regrouped behind the first. */
  lemma AppendAssoc4<T>(a: seq<T>, b: seq<T>, c: seq<T>, d: seq<T>)
    ensures a + b + c + d == a + (b + c + d)
  {
  }

  /** Five pieces regrouped to the right. */
  lemma AppendAssoc5<T>(a: seq<T>, b: seq<T>, c: seq<T>, d: seq<T>, e: seq<T>)
    ensures a + b + c + d + e == a + (b + (c + (d + e)))
  {
  }

  /** A string starts with any of its prefixes. */
  lemma StartsWithAppend(p: string, q: string)
    ensures StartsWith(p + q, p)
  {
    assert (p + q)[..|p|] == p;
  }
}
