/**
 * The text helpers bibcloud.py applies to the fields of a record
 * (bibcloud.py:262-369): trimming DBLP's numeric author suffixes, the
 * fallback transliteration of non-ASCII text, escaping `&` and `%` for
 * BibTeX, and turning an `ee` URL into an `ee` or a `doi` line.
 */
module Escaping {
  import opened Strings

  // ---------------------------------------------------------------- author_trim

  /** The text after the last space of `a` (all of `a` when it has no space). */
  function LastWord(a: string): (w: string)
    ensures |w| <= |a| && w == a[|a| - |w|..]
    ensures ' ' !in w
    ensures |w| < |a| ==> a[|a| - |w| - 1] == ' '
  {
    if |a| == 0 then ""
    else if a[|a| - 1] == ' ' then ""
    else LastWord(a[..|a| - 1]) + [a[|a| - 1]]
  }

  /** A space-free suffix that is all of `a` or follows a space is the last word. */
  lemma {:induction false} LastWordIs(a: string, w: string)
    requires |w| <= |a| && w == a[|a| - |w|..] && ' ' !in w
    requires |w| < |a| ==> a[|a| - |w| - 1] == ' '
    ensures w == LastWord(a)
  {
    var v := LastWord(a);
    assert |w| == |v|;
  }

  /** `a.split(' ')` ends with the last word, and the other parts rejoin to what precedes it. */
  lemma {:induction false} SplitSpaceLast(a: string, x: seq<string>)
    requires x == Split(a, ' ')
    ensures |x| >= 1 && x[|x| - 1] == LastWord(a)
    ensures ' ' in a ==> |x| >= 2 && a == Join(x[..|x| - 1], " ") + " " + x[|x| - 1]
    ensures ' ' !in a ==> x == [a]
  {
    var n := |x|;
    SplitCount(a, ' ');
    if ' ' in a {
      assert x == x[..n - 1] + [x[n - 1]];
      JoinSnoc(x[..n - 1], x[n - 1], " ");
      var pre := Join(x[..n - 1], " ");
      assert a == pre + " " + x[n - 1];
      assert a[|a| - |x[n - 1]| - 1] == ' ';
      assert a[|a| - |x[n - 1]|..] == x[n - 1];
      LastWordIs(a, x[n - 1]);
    } else {
      LastWordIs(a, a);
    }
  }

  /** `lastword[0:3] == '000'` holds exactly when the word starts with `000`. */
  lemma SliceIsTriple(w: string)
    ensures PySlice(w, 0, 3) == "000" <==> StartsWith(w, "000")
  {
    if |w| < 3 {
      assert |PySlice(w, 0, 3)| == |w|;
    }
  }

  /**
   * `author_trim(a)`: DBLP marks homonymous authors with a last word such as
   * `0001`; such a word is dropped together with the space before it, and
   * every other name, including the empty one, is returned unchanged.
   */
  function AuthorTrim(a: string): (r: string)
    ensures StartsWith(LastWord(a), "000") && ' ' in a ==> a == r + " " + LastWord(a)
    ensures StartsWith(LastWord(a), "000") && ' ' !in a ==> r == ""
    ensures !StartsWith(LastWord(a), "000") ==> r == a
  {
    var x := Split(a, ' ');
    SplitSpaceLast(a, x);
    var lastword := x[|x| - 1];
    SliceIsTriple(lastword);
    if PySlice(lastword, 0, 3) == "000" then Join(x[..|x| - 1], " ") else a
  }

  // ------------------------------------------------------- html_to_bibtex2 / html_to_bibtex

  /** Every character is ASCII, so Python 2's `str(h)` succeeds. */
  predicate IsAscii(h: string) {
    forall i :: 0 <= i < |h| ==> h[i] < 128 as char
  }

  /** The one entry of `HTML_TO_BIB` that survives in readable form (bibcloud.py:280). */
  const ApproxEntry: (char, string) := ('\U{2248}', "{$\\approx$}")

  /**
   * The table used by the fallback path. Only the entry for U+2248 is given
   * literally; the other entries of bibcloud.py:266-279 are not legible in the
   * source text, so every operation takes the table as a parameter.
   */
  const HtmlToBib: map<char, string> := map[ApproxEntry.0 := ApproxEntry.1]

  /** The fallback loop of `html_to_bibtex2`: each tabled character by its value, the rest as is. */
  function Transliterate(h: string, table: map<char, string>): string
  {
    if |h| == 0 then ""
    else
      var c := h[|h| - 1];
      Transliterate(h[..|h| - 1], table) + (if c in table then table[c] else [c])
  }

  lemma {:induction false} TransliterateAppend(a: string, b: string, table: map<char, string>)
    ensures Transliterate(a + b, table) == Transliterate(a, table) + Transliterate(b, table)
    decreases |b|
  {
    if |b| == 0 {
      assert a + b == a;
    } else {
      var n := |b| - 1;
      assert (a + b)[..|a + b| - 1] == a + b[..n];
      TransliterateAppend(a, b[..n], table);
    }
  }

  /** Characters without an entry pass through unchanged. */
  lemma {:induction false} TransliterateUntabled(h: string, table: map<char, string>)
    requires forall i :: 0 <= i < |h| ==> h[i] !in table
    ensures Transliterate(h, table) == h
  {
    if |h| > 0 {
      TransliterateUntabled(h[..|h| - 1], table);
    }
  }

  /** With a table of non-ASCII keys only, both paths of `html_to_bibtex2` agree on ASCII text. */
  lemma AsciiPathsAgree(h: string, table: map<char, string>)
    requires IsAscii(h)
    requires forall c :: c in table ==> c >= 128 as char
    ensures Transliterate(h, table) == h
  {
    TransliterateUntabled(h, table);
  }

  /** The readable entry: `≈` becomes `{$\approx$}`. */
  lemma ApproxTransliterated()
    ensures Transliterate("x\U{2248}y", HtmlToBib) == "x{$\\approx$}y"
  {
    var h := "x\U{2248}y";
    assert 'x' !in HtmlToBib && 'y' !in HtmlToBib && '\U{2248}' in HtmlToBib;
    assert h[..2] == "x\U{2248}" && h[..2][..1] == "x" && h[..2][..1][..0] == "";
    assert Transliterate("x", HtmlToBib) == "x";
    assert Transliterate("x\U{2248}", HtmlToBib) == "x{$\\approx$}";
  }

  /** The text `html_to_bibtex2(h)` returns, before its UTF-8 encoding. */
  function Converted(h: string, table: map<char, string>): string
  {
    if IsAscii(h) then h else Transliterate(h, table)
  }

  /** `html_to_bibtex2(h)`: `str(h)` for ASCII text, otherwise the character loop. */
  method HtmlToBibtex2(h: string, table: map<char, string>) returns (x: string)
    ensures x == Converted(h, table)
    ensures IsAscii(h) ==> x == h
  {
    if IsAscii(h) {
      return h;
    }
    x := "";
    var i := 0;
    assert h[..0] == "";
    while i < |h|
      invariant 0 <= i <= |h|
      invariant x == Transliterate(h[..i], table)
    {
      var c := h[i];
      assert h[..i + 1][..i] == h[..i];
      if c in table {
        x := x + table[c];
      } else {
        x := x + [c];
      }
      i := i + 1;
    }
    assert h[..i] == h;
  }

  /** The replacement `html_to_bibtex` puts for every `&`. */
  const BracedAmp: string := "{\\&}"

  /**
   * `html_to_bibtex(s)`: the converted text with every `&` replaced by
   * `{\&}`, so that afterwards every `&` follows a backslash.
   */
  function HtmlToBibtex(s: string, table: map<char, string>): (r: string)
    ensures IsAscii(s) ==> r == Replace(s, "&", BracedAmp)
    ensures AmpersandsEscaped(r)
  {
    ReplaceAmpersandEscapes(Converted(s, table), BracedAmp);
    Replace(Converted(s, table), "&", BracedAmp)
  }

  /** An ASCII example: `AT&T` becomes `AT{\&}T`. */
  lemma HtmlToBibtexExample(table: map<char, string>)
    ensures HtmlToBibtex("AT&T", table) == "AT{\\&}T"
  {
    assert IsAscii("AT&T");
    assert !StartsWith("AT&T", "&") && !StartsWith("T&T", "&") && StartsWith("&T", "&");
    assert !StartsWith("T", "&");
  }

  // ------------------------------------------------------------------ escape_percent

  /** `escape_percent(s)`: each `%` up to the first, escaped, then the rest recursively. */
  function EscapePercent(s: string): (r: string)
    ensures r == Replace(s, "%", "\\%")
    decreases |s|
  {
    FindChar(s, '%');
    var x := Find(s, "%");
    if x >= 0 then
      var rest := EscapePercent(s[x + 1..]);
      PercentSplit(s, x);
      s[..x] + "\\%" + rest
    else
      ReplaceAbsent(s, "%", "\\%");
      s
  }

  /** Splitting at the first `%`: the part before it is left as is by replacement. */
  lemma PercentSplit(s: string, x: nat)
    requires x < |s| && s[x] == '%' && '%' !in s[..x]
    ensures Replace(s, "%", "\\%") == s[..x] + "\\%" + Replace(s[x + 1..], "%", "\\%")
  {
    var pre, post := s[..x], s[x + 1..];
    SplitAround(s, x);
    ReplaceCharAppend(pre, ['%'] + post, '%', "\\%");
    ReplaceCharAppend(['%'], post, '%', "\\%");
    FindChar(pre, '%');
    ReplaceAbsent(pre, "%", "\\%");
    assert StartsWith(['%'], "%");
    assert Replace(['%'], "%", "\\%") == "\\%" + Replace([], "%", "\\%");
    AppendAssoc(pre, "\\%", Replace(post, "%", "\\%"));
  }

  /** Escaping adds exactly one character per `%`, and changes nothing without one. */
  lemma EscapePercentLength(s: string)
    ensures |EscapePercent(s)| == |s| + Count(s, '%')
    ensures '%' !in s ==> EscapePercent(s) == s
  {
    ReplaceCharLength(s, '%', "\\%");
    if '%' !in s {
      FindChar(s, '%');
      ReplaceAbsent(s, "%", "\\%");
    }
  }

  // -------------------------------------------------------------- escape_percent_amp

  const EscapedAmp: string := "\\&"

  /**
   * `escape_percent_amp(s)` as the script has it: when `s` holds `\&`,
   * everything up to and including the first `\&` is copied unchanged and
   * only the rest is processed; otherwise the earlier of the first `%` and
   * the first `&` gets a backslash and the rest is processed.
   */
  function EscapePercentAmp(s: string): string
    decreases |s|
  {
    var y := Find(s, EscapedAmp);
    if y >= 0 then
      s[..y + 2] + EscapePercentAmp(s[y + 2..])
    else
      var x := Find(s, "%");
      var z := Find(s, "&");
      if x >= 0 && (x < z || z < 0) then
        s[..x] + "\\%" + EscapePercentAmp(s[x + 1..])
      else if z >= 0 then
        s[..z] + "\\&" + EscapePercentAmp(s[z + 1..])
      else
        s
  }

  /** One character as the reference escapes it. */
  function EscapeChar(c: char): string
  {
    if c == '%' then "\\%" else if c == '&' then "\\&" else [c]
  }

  /** The reference: every `%` and every `&` gets a backslash, left to right. */
  function EscapeBoth(s: string): string
  {
    if |s| == 0 then "" else EscapeChar(s[0]) + EscapeBoth(s[1..])
  }

  lemma {:induction false} EscapeBothAppend(a: string, b: string)
    ensures EscapeBoth(a + b) == EscapeBoth(a) + EscapeBoth(b)
  {
    if |a| == 0 {
      assert a + b == b;
    } else {
      assert (a + b)[1..] == a[1..] + b;
      EscapeBothAppend(a[1..], b);
    }
  }

  /** Text without `%` and `&` is left as is. */
  lemma {:induction false} EscapeBothPlain(s: string)
    requires '%' !in s && '&' !in s
    ensures EscapeBoth(s) == s
  {
    if |s| > 0 {
      EscapeBothPlain(s[1..]);
    }
  }

  /** An occurrence in a suffix is an occurrence in the whole text. */
  lemma ContainsFromSuffix(s: string, p: string, k: nat)
    requires k <= |s|
    ensures Contains(s[k..], p) ==> Contains(s, p)
  {
    var t := s[k..];
    if Contains(t, p) {
      var i :| 0 <= i <= |t| && OccursAt(t, p, i);
      forall j | 0 <= j < |p|
        ensures s[k + i..k + i + |p|][j] == p[j]
      {
        assert t[i..i + |p|][j] == p[j];
      }
      assert s[k + i..k + i + |p|] == p;
      assert OccursAt(s, p, k + i);
    }
  }

  /** A suffix of a string without `p` has no `p` either. */
  lemma NoneInSuffix(s: string, p: string, k: nat)
    requires k <= |s| && Find(s, p) < 0
    ensures Find(s[k..], p) < 0
  {
    ContainsFromSuffix(s, p, k);
  }

  /** Splitting at position `k` around one character. */
  lemma EscapeBothAt(s: string, k: nat)
    requires k < |s| && '%' !in s[..k] && '&' !in s[..k]
    ensures EscapeBoth(s) == s[..k] + EscapeBoth([s[k]]) + EscapeBoth(s[k + 1..])
  {
    var pre, mid, post := s[..k], [s[k]], s[k + 1..];
    SplitAround(s, k);
    EscapeBothAppend(pre, mid + post);
    EscapeBothAppend(mid, post);
    EscapeBothPlain(pre);
    AppendAssoc(pre, EscapeBoth(mid), EscapeBoth(post));
  }

  /** Without any `\&` in the input, `escape_percent_amp` puts a backslash before every `%` and `&`. */
  lemma {:induction false} EscapePercentAmpPlain(s: string)
    requires Find(s, EscapedAmp) < 0
    ensures EscapePercentAmp(s) == EscapeBoth(s)
    decreases |s|
  {
    var x := Find(s, "%");
    var z := Find(s, "&");
    if x >= 0 && (x < z || z < 0) {
      NoneInSuffix(s, EscapedAmp, x + 1);
      EscapePercentAmpPlain(s[x + 1..]);
      PercentBranch(s, x);
    } else if z >= 0 {
      if x >= 0 {
        FindsApart(s, x, z);
      }
      NoneInSuffix(s, EscapedAmp, z + 1);
      EscapePercentAmpPlain(s[z + 1..]);
      AmpersandBranch(s, z);
    } else {
      NothingToEscape(s);
      NeitherEscaped(s);
    }
  }

  /** A `%` and a `&` are never found at the same place. */
  lemma FindsApart(s: string, x: int, z: int)
    requires x == Find(s, "%") && x >= 0 && z == Find(s, "&") && z >= 0
    ensures x != z
  {
    FindChar(s, '%');
    FindChar(s, '&');
  }

  /** Text with neither `%` nor `&` is its own escaping. */
  lemma NeitherEscaped(s: string)
    requires Find(s, "%") < 0 && Find(s, "&") < 0
    ensures EscapeBoth(s) == s
  {
    FindChar(s, '%');
    FindChar(s, '&');
    EscapeBothPlain(s);
  }

  /** The step of the lemma above when a `%` comes first, given the claim for what follows it. */
  lemma PercentBranch(s: string, x: int)
    requires Find(s, EscapedAmp) < 0 && x == Find(s, "%") && x >= 0
    requires Find(s, "&") < 0 || x < Find(s, "&")
    requires EscapePercentAmp(s[x + 1..]) == EscapeBoth(s[x + 1..])
    ensures EscapePercentAmp(s) == EscapeBoth(s)
  {
    var z := Find(s, "&");
    assert s[x] == '%' && '%' !in s[..x] by { FindChar(s, '%'); }
    CharAbsentBefore(s, '&', x);
    PercentFirst(s, x);
    assert "\\%" == ['\\', s[x]];
    EscapedAtFirst(s, x, EscapePercentAmp(s));
  }

  /** The step of the lemma above when an `&` comes first, given the claim for what follows it. */
  lemma AmpersandBranch(s: string, z: int)
    requires Find(s, EscapedAmp) < 0 && z == Find(s, "&") && z >= 0
    requires Find(s, "%") < 0 || z < Find(s, "%")
    requires EscapePercentAmp(s[z + 1..]) == EscapeBoth(s[z + 1..])
    ensures EscapePercentAmp(s) == EscapeBoth(s)
  {
    var x := Find(s, "%");
    assert s[z] == '&' && '&' !in s[..z] by { FindChar(s, '&'); }
    CharAbsentBefore(s, '%', z);
    AmpersandFirst(s, z);
    assert "\\&" == ['\\', s[z]];
    EscapedAtFirst(s, z, EscapePercentAmp(s));
  }

  /** With a `\&` in the input, the text up to and including the first one is copied and the rest processed. */
  lemma EscapedAmpKept(s: string, y: int)
    requires y == Find(s, EscapedAmp) && y >= 0
    ensures EscapePercentAmp(s) == s[..y + 2] + EscapePercentAmp(s[y + 2..])
  {
    var p := s[..y + 2];
    FirstEscapedAmpPart(s, y, p);
    EscapePercentAmpAfterPrefix(p, s[y + 2..], y);
    SplitAt(s, y + 2);
  }

  /** Without `\&`, a `%` before any `&` is the one `escape_percent_amp` escapes. */
  lemma PercentFirst(s: string, x: int)
    requires Find(s, EscapedAmp) < 0 && x == Find(s, "%") && x >= 0
    requires Find(s, "&") < 0 || x < Find(s, "&")
    ensures EscapePercentAmp(s) == s[..x] + "\\%" + EscapePercentAmp(s[x + 1..])
  {
  }

  /** Without `\&`, an `&` before any `%` is the one `escape_percent_amp` escapes. */
  lemma AmpersandFirst(s: string, z: int)
    requires Find(s, EscapedAmp) < 0 && z == Find(s, "&") && z >= 0
    requires Find(s, "%") < 0 || z < Find(s, "%")
    ensures EscapePercentAmp(s) == s[..z] + "\\&" + EscapePercentAmp(s[z + 1..])
  {
  }

  /** Escaping the first `%` or `&` at `k` and the rest as the reference does gives the reference. */
  lemma EscapedAtFirst(s: string, k: nat, e: string)
    requires k < |s| && '%' !in s[..k] && '&' !in s[..k] && (s[k] == '%' || s[k] == '&')
    requires e == s[..k] + ['\\', s[k]] + EscapeBoth(s[k + 1..])
    ensures e == EscapeBoth(s)
  {
    EscapeBothAt(s, k);
    EscapeBothOne(s[k]);
  }

  /** With a `\&` in the input, the text up to and including the first one is kept as it is. */
  lemma EscapePercentAmpKeepsPrefix(s: string)
    requires Contains(s, EscapedAmp)
    ensures var y := Find(s, EscapedAmp);
      0 <= y && y + 2 <= |s| && StartsWith(EscapePercentAmp(s), s[..y + 2])
  {
    var y := Find(s, EscapedAmp);
    assert EscapePercentAmp(s) == s[..y + 2] + EscapePercentAmp(s[y + 2..]);
    StartsWithAppend(s[..y + 2], EscapePercentAmp(s[y + 2..]));
  }

  /** `\&` occurs at `i` exactly when a backslash at `i` is followed by `&`. */
  lemma EscapedAmpAt(s: string)
    ensures forall i :: OccursAt(s, EscapedAmp, i) <==> 0 <= i && i + 1 < |s| && s[i] == '\\' && s[i + 1] == '&'
  {
    forall i
      ensures OccursAt(s, EscapedAmp, i) <==> 0 <= i && i + 1 < |s| && s[i] == '\\' && s[i + 1] == '&'
    {
      assert |EscapedAmp| == 2 && EscapedAmp[0] == '\\' && EscapedAmp[1] == '&';
      if 0 <= i && i + 1 < |s| {
        assert s[i..i + 2] == [s[i], s[i + 1]];
      }
    }
  }

  /** The reference on one character that it escapes. */
  lemma EscapeBothOne(c: char)
    requires c == '%' || c == '&'
    ensures EscapeBoth([c]) == ['\\', c]
  {
    assert [c][1..] == "";
  }

  /** Text without a backslash holds no `\&`. */
  lemma NoBackslashNoEscapedAmp(s: string)
    requires '\\' !in s
    ensures Find(s, EscapedAmp) < 0
  {
    EscapedAmpAt(s);
    forall i | 0 <= i <= |s| ensures !OccursAt(s, EscapedAmp, i) {
      if i < |s| {
        assert s[i] in s;
      }
    }
  }

  /**
   * Escaping is not idempotent once a `%` is involved: `%` becomes `\%`, and
   * a second pass escapes that `%` again after the backslash.
   */
  lemma EscapePercentAmpNotIdempotent()
    ensures EscapePercentAmp("%") == "\\%"
    ensures EscapePercentAmp(EscapePercentAmp("%")) == "\\\\%"
    ensures EscapePercentAmp(EscapePercentAmp("%")) != EscapePercentAmp("%")
  {
    EscapeLonePercent();
    EscapeEscapedPercent();
  }

  /** A lone `%` gets its backslash. */
  lemma EscapeLonePercent()
    ensures EscapePercentAmp("%") == "\\%"
  {
    NoBackslashNoEscapedAmp("%");
    EscapePercentAmpPlain("%");
    EscapeBothOne('%');
  }

  /** An escaped `%` is escaped again: the backslash stays and the `%` gets another. */
  lemma EscapeEscapedPercent()
    ensures EscapePercentAmp("\\%") == "\\\\%"
  {
    var e := "\\%";
    EscapedAmpAt(e);
    assert e[1] == '%';
    assert Find(e, EscapedAmp) < 0;
    EscapePercentAmpPlain(e);
    assert e == ['\\'] + "%";
    EscapeBothAppend(['\\'], "%");
    EscapeBothPlain(['\\']);
    EscapeBothOne('%');
  }

  /** Text with none of the three characters the escaping looks at. */
  predicate Plain(s: string) {
    '%' !in s && '&' !in s && '\\' !in s
  }

  /** The reference on the shape of the example below. */
  lemma EscapeBothExample(a: string, b: string, c: string)
    requires Plain(a) && Plain(b) && Plain(c)
    ensures EscapeBoth(a + "&" + b + "%" + c) == a + "\\&" + b + "\\%" + c
  {
    var amp, pct := "&", "%";
    AppendAssoc5(a, amp, b, pct, c);
    AppendAssoc5(a, EscapedAmp, b, "\\%", c);
    EscapeBothAppend(pct, c);
    EscapeBothAppend(b, pct + c);
    EscapeBothAppend(amp, b + (pct + c));
    EscapeBothAppend(a, amp + (b + (pct + c)));
    EscapeBothPlain(a);
    EscapeBothPlain(b);
    EscapeBothPlain(c);
    EscapeBothOne('&');
    EscapeBothOne('%');
    assert ['&'] == amp && ['%'] == pct;
  }

  /** Between plain pieces, every `&` and every `%` gets its backslash: `A & B % C` becomes `A \& B \% C`. */
  lemma EscapePercentAmpExample(a: string, b: string, c: string)
    requires Plain(a) && Plain(b) && Plain(c)
    ensures EscapePercentAmp(a + "&" + b + "%" + c) == a + "\\&" + b + "\\%" + c
  {
    var s := a + "&" + b + "%" + c;
    NoBackslashNoEscapedAmp(s);
    EscapePercentAmpPlain(s);
    EscapeBothExample(a, b, c);
  }

  /** Text without a backslash followed by `\&` has its first `\&` at the end. */
  lemma EscapedAmpFirstAtEnd(w: string)
    requires '\\' !in w
    ensures OccursAt(w + EscapedAmp, EscapedAmp, |w|)
    ensures forall j :: 0 <= j < |w| ==> !OccursAt(w + EscapedAmp, EscapedAmp, j)
  {
    var u := w + EscapedAmp;
    EscapedAmpAt(u);
    assert u[|w|] == '\\' && u[|w| + 1] == '&';
    forall j | 0 <= j < |w| ensures !OccursAt(u, EscapedAmp, j) {
      assert u[j] == w[j] && w[j] in w;
    }
  }

  /** The reference on plain text followed by one `%`. */
  lemma EscapeBothTrailingPercent(c: string)
    requires Plain(c)
    ensures EscapeBoth(c + "%") == c + "\\%"
  {
    EscapeBothAppend(c, "%");
    EscapeBothPlain(c);
    EscapeBothOne('%');
  }

  /**
   * A `%` before the first `\&` is not escaped, unlike the left-to-right
   * rule: `5% \& 6%` becomes `5% \& 6\%`.
   */
  lemma EscapePercentAmpSkipsEarlyPercent(a: string, b: string, c: string)
    requires Plain(a) && Plain(b) && Plain(c)
    ensures EscapePercentAmp(a + "%" + b + "\\&" + c + "%") == a + "%" + b + "\\&" + c + "\\%"
  {
    var w := a + "%" + b;
    var v := c + "%";
    EscapedAmpFirstAtEnd(w);
    EscapePercentAmpAfterPrefix(w + EscapedAmp, v, |w|);
    NoBackslashNoEscapedAmp(v);
    EscapePercentAmpPlain(v);
    EscapeBothTrailingPercent(c);
    AppendAssoc(w + EscapedAmp, c, "%");
    AppendAssoc(w + EscapedAmp, c, "\\%");
  }

  /** The first `\&` of `u` is still the first one after anything is appended behind it. */
  lemma FindEscapedAmpPrefix(u: string, v: string, y: nat)
    requires OccursAt(u, EscapedAmp, y) && y + 2 == |u|
    requires forall j :: 0 <= j < y ==> !OccursAt(u, EscapedAmp, j)
    ensures Find(u + v, EscapedAmp) == y
  {
    var w := u + v;
    assert |EscapedAmp| == 2;
    assert w[y..y + 2] == u[y..y + 2];
    forall j | 0 <= j < y ensures !OccursAt(w, EscapedAmp, j) {
      assert !OccursAt(u, EscapedAmp, j);
      assert j + 2 <= |u| && w[j..j + 2] == u[j..j + 2];
    }
    FindIs(w, EscapedAmp, y);
  }

  /** Text that starts with a part ending in its first `\&` keeps that part and processes the rest. */
  lemma EscapePercentAmpAfterPrefix(u: string, v: string, y: nat)
    requires OccursAt(u, EscapedAmp, y) && y + 2 == |u|
    requires forall j :: 0 <= j < y ==> !OccursAt(u, EscapedAmp, j)
    ensures EscapePercentAmp(u + v) == u + EscapePercentAmp(v)
  {
    FindEscapedAmpPrefix(u, v, y);
    assert (u + v)[..y + 2] == u && (u + v)[y + 2..] == v;
  }

  /** Cutting `s` just after its first `\&` gives such a part. */
  lemma FirstEscapedAmpPart(s: string, y: int, p: string)
    requires y == Find(s, EscapedAmp) && y >= 0 && y + 2 <= |s| && p == s[..y + 2]
    ensures OccursAt(p, EscapedAmp, y)
    ensures forall j :: 0 <= j < y ==> !OccursAt(p, EscapedAmp, j)
  {
    assert |EscapedAmp| == 2;
    OccursInPrefix(s, EscapedAmp, y + 2, y);
    forall j | 0 <= j < y ensures !OccursAt(p, EscapedAmp, j) {
      OccursInPrefix(s, EscapedAmp, y + 2, j);
    }
  }

  /** In text without `\&`, escaping the first `&` gives such a part. */
  lemma FirstAmpPart(s: string, z: nat)
    requires Find(s, EscapedAmp) < 0 && z < |s| && s[z] == '&' && '&' !in s[..z]
    ensures var u := s[..z] + EscapedAmp;
      && OccursAt(u, EscapedAmp, z)
      && forall j :: 0 <= j < z ==> !OccursAt(u, EscapedAmp, j)
  {
    var u := s[..z] + EscapedAmp;
    EscapedAmpAt(u);
    assert u[z] == '\\' && u[z + 1] == '&';
    forall j | 0 <= j < z ensures !OccursAt(u, EscapedAmp, j) {
      if j + 1 < z {
        assert u[j + 1] == s[..z][j + 1];
      }
    }
  }

  lemma FixedPoint(s: string, e: string)
    requires EscapePercentAmp(s) == e && EscapePercentAmp(e) == e
    ensures EscapePercentAmp(EscapePercentAmp(s)) == EscapePercentAmp(s)
  {
  }

  /** For text without `%`, applying `escape_percent_amp` twice is the same as once. */
  lemma {:induction false} EscapePercentAmpIdempotent(s: string)
    requires '%' !in s
    ensures EscapePercentAmp(EscapePercentAmp(s)) == EscapePercentAmp(s)
    decreases |s|
  {
    var y := Find(s, EscapedAmp);
    if y >= 0 {
      assert '%' !in s[y + 2..] by {
        var rest := s[y + 2..];
        assert forall i :: 0 <= i < |rest| ==> rest[i] == s[y + 2 + i];
      }
      EscapePercentAmpIdempotent(s[y + 2..]);
      var p, t := s[..y + 2], EscapePercentAmp(s[y + 2..]);
      EscapedAmpKept(s, y);
      StableAfterEscapedAmp(s, y, p, t);
      FixedPoint(s, p + t);
    } else {
      var z := Find(s, "&");
      if z >= 0 {
        assert '%' !in s[z + 1..] by {
          var rest := s[z + 1..];
          assert forall i :: 0 <= i < |rest| ==> rest[i] == s[z + 1 + i];
        }
        EscapePercentAmpIdempotent(s[z + 1..]);
        var t := EscapePercentAmp(s[z + 1..]);
        StableAfterAmp(s, z, t);
        FixedPoint(s, s[..z] + EscapedAmp + t);
      } else {
        assert Find(s, "%") < 0 by { FindChar(s, '%'); }
        NothingToEscape(s);
        FixedPoint(s, s);
      }
    }
  }

  /** Text with no `\&`, no `%` and no `&` is returned as it is. */
  lemma NothingToEscape(s: string)
    requires Find(s, EscapedAmp) < 0 && Find(s, "%") < 0 && Find(s, "&") < 0
    ensures EscapePercentAmp(s) == s
  {
  }

  /**
   * The step of the lemma above when `s` holds `\&`: if the processed rest `t`
   * is left unchanged by escaping, so is the result for `s`.
   */
  lemma StableAfterEscapedAmp(s: string, y: int, p: string, t: string)
    requires y == Find(s, EscapedAmp) && y >= 0 && p == s[..y + 2]
    requires EscapePercentAmp(t) == t
    ensures EscapePercentAmp(p + t) == p + t
  {
    FirstEscapedAmpPart(s, y, p);
    EscapePercentAmpAfterPrefix(p, t, y);
  }

  /**
   * The step of the lemma above when the first `&` is escaped: if the processed
   * rest `t` is left unchanged by escaping, so is the result for `s`.
   */
  lemma StableAfterAmp(s: string, z: int, t: string)
    requires Find(s, EscapedAmp) < 0 && '%' !in s && z == Find(s, "&") && z >= 0
    requires t == EscapePercentAmp(s[z + 1..]) && EscapePercentAmp(t) == t
    ensures EscapePercentAmp(s) == s[..z] + EscapedAmp + t
    ensures EscapePercentAmp(s[..z] + EscapedAmp + t) == s[..z] + EscapedAmp + t
  {
    var u := s[..z] + EscapedAmp;
    assert Find(s, "%") < 0 by { FindChar(s, '%'); }
    AmpersandFirst(s, z);
    assert s[z] == '&' && '&' !in s[..z] by { FindChar(s, '&'); }
    FirstAmpPart(s, z);
    EscapePercentAmpAfterPrefix(u, t, z);
  }

  // ------------------------------------------------------------------ output_doi_ee

  /** `DOI_IN_DBLP`: the URL prefixes of a DOI resolver, in the order they are removed. */
  const DoiInDblp: seq<string> := ["http://doi.acm.org/", "http://doi.ieeecomputersociety.org/", "http://dx.doi.org/"]

  /** `doi` after the loop: every occurrence of each prefix removed, prefix by prefix. */
  function RemovePrefixes(doi: string, prefixes: seq<string>): string
    requires forall i :: 0 <= i < |prefixes| ==> prefixes[i] != ""
  {
    if |prefixes| == 0 then doi
    else
      var n := |prefixes| - 1;
      Replace(RemovePrefixes(doi, prefixes[..n]), prefixes[n], "")
  }

  /** Removal never lengthens the URL; it leaves it unchanged iff none of the prefixes occurs. */
  lemma {:induction false} RemovePrefixesChanges(url: string, prefixes: seq<string>)
    requires forall i :: 0 <= i < |prefixes| ==> prefixes[i] != ""
    ensures |RemovePrefixes(url, prefixes)| <= |url|
    ensures (forall i :: 0 <= i < |prefixes| ==> !Contains(url, prefixes[i])) ==> RemovePrefixes(url, prefixes) == url
    ensures (exists i :: 0 <= i < |prefixes| && Contains(url, prefixes[i])) ==> |RemovePrefixes(url, prefixes)| < |url|
  {
    if |prefixes| > 0 {
      var n := |prefixes| - 1;
      var pre := prefixes[..n];
      RemovePrefixesChanges(url, pre);
      var d := RemovePrefixes(url, pre);
      RemoveShrinks(d, prefixes[n]);
      if forall i :: 0 <= i < |prefixes| ==> !Contains(url, prefixes[i]) {
        assert forall i :: 0 <= i < |pre| ==> pre[i] == prefixes[i];
        ReplaceAbsent(d, prefixes[n], "");
      }
      if exists i :: 0 <= i < |prefixes| && Contains(url, prefixes[i]) {
        var i :| 0 <= i < |prefixes| && Contains(url, prefixes[i]);
        if i < n {
          assert pre[i] == prefixes[i];
        } else if d == url {
          assert Contains(d, prefixes[n]);
        }
      }
    }
  }

  /** The start `  name =` of a BibTeX field line. */
  function FieldPrefix(name: string): string
  {
    "  " + name + " ="
  }

  /** A BibTeX field line `  name = value` followed by `end`. */
  function FieldAssign(name: string, value: string, end: string): string
  {
    FieldPrefix(name) + " " + value + end
  }

  /** The usual shape of a field line: `  name = {value},` and a newline. */
  function BracedField(name: string, value: string): string
  {
    FieldAssign(name, "{" + value + "}", ",\n")
  }

  /** The line `output_doi_ee(url)` returns. */
  function DoiEeLine(url: string): string
  {
    var doi := RemovePrefixes(url, DoiInDblp);
    if doi == url then BracedField("ee", EscapePercent(url)) else BracedField("doi", doi)
  }

  /** A URL the prefix removal leaves unchanged gives an `ee` line. */
  lemma EeLineIs(url: string, e: string)
    requires RemovePrefixes(url, DoiInDblp) == url && e == EscapePercent(url)
    ensures DoiEeLine(url) == BracedField("ee", e)
  {
  }

  /** The URL holds the prefix of one of the three DOI resolvers. */
  predicate FromResolver(url: string) {
    exists i :: 0 <= i < |DoiInDblp| && Contains(url, DoiInDblp[i])
  }

  /**
   * A URL of none of the three resolvers gives an `ee` line with its `%`
   * escaped; a URL with one of them gives a `doi` line with every occurrence
   * of the prefixes removed and nothing escaped.
   */
  lemma DoiEeLineCases(url: string)
    ensures !FromResolver(url) ==> DoiEeLine(url) == BracedField("ee", EscapePercent(url))
    ensures FromResolver(url) ==> |RemovePrefixes(url, DoiInDblp)| < |url|
    ensures FromResolver(url) ==> DoiEeLine(url) == BracedField("doi", RemovePrefixes(url, DoiInDblp))
  {
    RemovePrefixesChanges(url, DoiInDblp);
  }

  /** `output_doi_ee(url)`: the prefix-removal loop, then the choice of line. */
  method OutputDoiEe(url: string) returns (line: string)
    ensures line == DoiEeLine(url)
  {
    var doi := url;
    var i := 0;
    while i < |DoiInDblp|
      invariant 0 <= i <= |DoiInDblp|
      invariant doi == RemovePrefixes(url, DoiInDblp[..i])
    {
      assert DoiInDblp[..i + 1][..i] == DoiInDblp[..i];
      doi := Replace(doi, DoiInDblp[i], "");
      i := i + 1;
    }
    assert DoiInDblp[..i] == DoiInDblp;
    if doi == url {
      line := BracedField("ee", EscapePercent(url));
    } else {
      line := BracedField("doi", doi);
    }
  }
}
