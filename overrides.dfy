/**
 * The optional override files and the resolution of citation keys
 * (bibcloud.py:196-208, 388-423): `dblp-alias.txt` fills `ALIAS` and
 * `REVALIAS`, `dblp-title.txt` fills `TITLESUB`; the citation list is then
 * mapped through `ALIAS`, keys used in both forms are reported, and
 * `latex_backmap` takes every resolved key back to the name the document uses.
 */
module Overrides {
  import opened Strings
  import opened Results

  /** `strip_comment(l)`: the text before the first `%`, or all of `l`. */
  function StripComment(l: string): (r: string)
    ensures '%' !in r
    ensures '%' in l ==> |r| < |l| && l[..|r|] == r && l[|r|] == '%'
    ensures '%' !in l ==> r == l
  {
    FindChar(l, '%');
    var pos := Find(l, "%");
    if pos >= 0 then l[..pos] else l
  }

  /** A line of an override file as the loops see it: stripped, then cut at its comment. */
  function CleanLine(raw: string): string
  {
    StripComment(Strip(raw, IsSpace))
  }

  /** The words of a line of `dblp-alias.txt`: the cleaned line split at whitespace. */
  function LineWords(l: string): seq<string>
  {
    Words(CleanLine(l))
  }

  /**
   * The words of every line of `dblp-alias.txt`: each word is non-empty and
   * holds neither whitespace nor a comment sign.
   */
  function FileWords(raw: seq<string>): (ws: seq<seq<string>>)
    ensures |ws| == |raw| && forall i :: 0 <= i < |raw| ==> ws[i] == LineWords(raw[i])
    ensures forall i, k :: 0 <= i < |ws| && 0 <= k < |ws[i]| ==> ws[i][k] != "" && NoSpace(ws[i][k]) && '%' !in ws[i][k]
  {
    LineWordsClean(raw);
    seq(|raw|, i requires 0 <= i < |raw| => LineWords(raw[i]))
  }

  lemma LineWordsClean(raw: seq<string>)
    ensures forall i, k :: 0 <= i < |raw| && 0 <= k < |LineWords(raw[i])| ==>
              LineWords(raw[i])[k] != "" && NoSpace(LineWords(raw[i])[k]) && '%' !in LineWords(raw[i])[k]
  {
    forall i | 0 <= i < |raw|
      ensures forall k :: 0 <= k < |LineWords(raw[i])| ==>
                LineWords(raw[i])[k] != "" && NoSpace(LineWords(raw[i])[k]) && '%' !in LineWords(raw[i])[k]
    {
      WordsSpec(CleanLine(raw[i]));
      WordsAvoid(CleanLine(raw[i]), '%');
    }
  }

  /** The words of a line define an alias: at least two of them, the second holding `DBLP:`. */
  predicate IsAliasLine(x: seq<string>) {
    |x| >= 2 && Contains(x[1], "DBLP:")
  }

  /** The alias pairs of a file, given the words of its lines, in file order. */
  function PairsOf(ws: seq<seq<string>>): (ps: seq<(string, string)>)
    ensures |ps| <= |ws|
    ensures forall i :: 0 <= i < |ps| ==> Contains(ps[i].1, "DBLP:")
  {
    if |ws| == 0 then
      []
    else
      var x := ws[|ws| - 1];
      PairsOf(ws[..|ws| - 1]) + (if IsAliasLine(x) then [(x[0], x[1])] else [])
  }

  /** The words of the rejected, non-empty lines (the ones reported as bad), in file order. */
  function BadOf(ws: seq<seq<string>>): (bad: seq<seq<string>>)
    ensures forall i :: 0 <= i < |bad| ==> |bad[i]| > 0 && !IsAliasLine(bad[i])
  {
    if |ws| == 0 then
      []
    else
      var x := ws[|ws| - 1];
      BadOf(ws[..|ws| - 1]) + (if IsAliasLine(x) || |x| == 0 then [] else [x])
  }

  /** The alias pairs `dblp-alias.txt` defines. */
  function AliasPairs(raw: seq<string>): seq<(string, string)>
  {
    PairsOf(FileWords(raw))
  }

  /** The lines of `dblp-alias.txt` the loop reports as bad. */
  function BadAliasLines(raw: seq<string>): seq<seq<string>>
  {
    BadOf(FileWords(raw))
  }

  /** Every alias is a single word and every target a DBLP key; there is at most one pair per line. */
  lemma {:induction false} AliasPairsWellFormed(raw: seq<string>)
    ensures var ps := AliasPairs(raw);
      && |ps| <= |raw|
      && forall i :: 0 <= i < |ps| ==> ps[i].0 != "" && NoSpace(ps[i].0) && Contains(ps[i].1, "DBLP:")
  {
    PairsOfWords(FileWords(raw));
  }

  lemma {:induction false} PairsOfWords(ws: seq<seq<string>>)
    requires forall j :: 0 <= j < |ws| ==> forall k :: 0 <= k < |ws[j]| ==> ws[j][k] != "" && NoSpace(ws[j][k])
    ensures forall i :: 0 <= i < |PairsOf(ws)| ==> PairsOf(ws)[i].0 != "" && NoSpace(PairsOf(ws)[i].0)
  {
    if |ws| > 0 {
      PairsOfWords(ws[..|ws| - 1]);
    }
  }

  /** The title substitution a cleaned line defines: its two sides when it has exactly one `|`. */
  function TitlePair(l: string): (r: Option<(string, string)>)
    ensures r.Some? <==> Count(l, '|') == 1
    ensures r.Some? ==> l == r.value.0 + "|" + r.value.1 && '|' !in r.value.0 && '|' !in r.value.1
  {
    var x := Split(l, '|');
    SplitCount(l, '|');
    if |x| == 2 then
      assert x[1..] == [x[1]];
      assert Join(x[1..], "|") == x[1];
      Some((x[0], x[1]))
    else
      None
  }

  /** The title pairs of the raw lines of `dblp-title.txt`, in file order. */
  function TitlePairs(raw: seq<string>): (ps: seq<(string, string)>)
    ensures forall i :: 0 <= i < |ps| ==> '|' !in ps[i].0 && '|' !in ps[i].1 && '%' !in ps[i].0 && '%' !in ps[i].1
  {
    if |raw| == 0 then
      []
    else
      var l := CleanLine(raw[|raw| - 1]);
      var p := TitlePair(l);
      if p.Some? then
        assert forall i :: 0 <= i < |p.value.0| ==> p.value.0[i] == l[i];
        assert forall i :: 0 <= i < |p.value.1| ==> p.value.1[i] == l[|p.value.0| + 1 + i];
        TitlePairs(raw[..|raw| - 1]) + [p.value]
      else
        TitlePairs(raw[..|raw| - 1])
  }

  /** `d[k] = v` for every pair, in order: the dictionary the loop leaves behind. */
  function Assign<K, V>(m: map<K, V>, ps: seq<(K, V)>): map<K, V>
  {
    if |ps| == 0 then m
    else Assign(m, ps[..|ps| - 1])[ps[|ps| - 1].0 := ps[|ps| - 1].1]
  }

  lemma AssignSnoc<K, V>(m: map<K, V>, ps: seq<(K, V)>, p: (K, V))
    ensures Assign(m, ps + [p]) == Assign(m, ps)[p.0 := p.1]
  {
    assert (ps + [p])[..|ps|] == ps;
  }

  /** One turn of the loop over `dblp-title.txt`: a cleaned line with exactly two `|`-parts sets its pair. */
  function TitleLineSet(m: map<string, string>, l: string): map<string, string>
  {
    var x := Split(l, '|');
    if |x| == 2 then m[x[0] := x[1]] else m
  }

  lemma TitleLineStep(m: map<string, string>, raw: seq<string>, i: nat)
    requires i < |raw|
    ensures Assign(m, TitlePairs(raw[..i + 1])) == TitleLineSet(Assign(m, TitlePairs(raw[..i])), CleanLine(raw[i]))
  {
    assert raw[..i + 1][..i] == raw[..i];
    var l := CleanLine(raw[i]);
    var x := Split(l, '|');
    var p := TitlePair(l);
    if |x| == 2 {
      assert p == Some((x[0], x[1]));
      AssignSnoc(m, TitlePairs(raw[..i]), (x[0], x[1]));
    } else {
      assert p.None?;
    }
  }

  function Swapped<K, V>(ps: seq<(K, V)>): (r: seq<(V, K)>)
    ensures |r| == |ps| && forall i :: 0 <= i < |ps| ==> r[i] == (ps[i].1, ps[i].0)
  {
    seq(|ps|, i requires 0 <= i < |ps| => (ps[i].1, ps[i].0))
  }

  lemma SwappedSnoc<K, V>(ps: seq<(K, V)>, p: (K, V))
    ensures Swapped(ps + [p]) == Swapped(ps) + [(p.1, p.0)]
  {
  }

  /** After the loop a key is present exactly when it was before or some pair sets it. */
  lemma {:induction false} AssignKeys<K, V>(m: map<K, V>, ps: seq<(K, V)>, k: K)
    ensures k in Assign(m, ps) <==> k in m || exists i :: 0 <= i < |ps| && ps[i].0 == k
  {
    if |ps| > 0 {
      var pre := ps[..|ps| - 1];
      AssignKeys(m, pre, k);
      if exists i :: 0 <= i < |pre| && pre[i].0 == k {
        var i :| 0 <= i < |pre| && pre[i].0 == k;
        assert ps[i].0 == k;
      }
      if exists i :: 0 <= i < |ps| && ps[i].0 == k {
        var i :| 0 <= i < |ps| && ps[i].0 == k;
        if i < |pre| { assert pre[i].0 == k; }
      }
    }
  }

  /** The last pair that sets a key wins. */
  lemma {:induction false} AssignLastWins<K, V>(m: map<K, V>, ps: seq<(K, V)>, i: nat)
    requires i < |ps|
    requires forall j :: i < j < |ps| ==> ps[j].0 != ps[i].0
    ensures ps[i].0 in Assign(m, ps) && Assign(m, ps)[ps[i].0] == ps[i].1
  {
    if i < |ps| - 1 {
      var pre := ps[..|ps| - 1];
      AssignLastWins(m, pre, i);
    }
  }

  /** A key no pair sets keeps its old entry. */
  lemma {:induction false} AssignUntouched<K, V>(m: map<K, V>, ps: seq<(K, V)>, k: K)
    requires forall j :: 0 <= j < |ps| ==> ps[j].0 != k
    ensures k in Assign(m, ps) <==> k in m
    ensures k in m ==> Assign(m, ps)[k] == m[k]
  {
    if |ps| > 0 {
      AssignUntouched(m, ps[..|ps| - 1], k);
    }
  }

  /** The two alias tables. */
  datatype AliasTables = AliasTables(alias: map<string, string>, rev: map<string, string>)

  /** The tables after the alias loop has processed `ps`. */
  function WithAliases(t: AliasTables, ps: seq<(string, string)>): AliasTables
  {
    AliasTables(Assign(t.alias, ps), Assign(t.rev, Swapped(ps)))
  }

  /** One more pair sets the alias in the first table and its inverse in the second. */
  lemma WithAliasesSnoc(t: AliasTables, ps: seq<(string, string)>, a: string, d: string)
    ensures var w := WithAliases(t, ps);
      WithAliases(t, ps + [(a, d)]) == AliasTables(w.alias[a := d], w.rev[d := a])
  {
    AssignSnoc(t.alias, ps, (a, d));
    SwappedSnoc(ps, (a, d));
    AssignSnoc(t.rev, Swapped(ps), (d, a));
  }

  /**
   * What the alias loop always keeps: every aliased key has a reverse entry,
   * every reverse entry names an alias, and the DBLP side holds `DBLP:`.
   */
  ghost predicate Consistent(t: AliasTables) {
    && (forall a :: a in t.alias ==> t.alias[a] in t.rev && Contains(t.alias[a], "DBLP:"))
    && (forall d :: d in t.rev ==> t.rev[d] in t.alias && Contains(d, "DBLP:"))
  }

  /** The tables are inverse to each other (what a well-formed alias file gives). */
  ghost predicate Inverse(t: AliasTables) {
    && (forall a :: a in t.alias ==> t.alias[a] in t.rev && t.rev[t.alias[a]] == a)
    && (forall d :: d in t.rev ==> t.rev[d] in t.alias && t.alias[t.rev[d]] == d)
  }

  /** The alias loop preserves consistency. */
  lemma {:induction false} WithAliasesConsistent(t: AliasTables, ps: seq<(string, string)>)
    requires Consistent(t)
    requires forall i :: 0 <= i < |ps| ==> Contains(ps[i].1, "DBLP:")
    ensures Consistent(WithAliases(t, ps))
  {
    if |ps| > 0 {
      var pre := ps[..|ps| - 1];
      WithAliasesConsistent(t, pre);
      assert Swapped(ps)[..|ps| - 1] == Swapped(pre);
    }
  }

  /** The state of the alias loop: the two tables and the bad lines reported so far. */
  datatype AliasRun = AliasRun(tables: AliasTables, bad: seq<seq<string>>)

  /** One iteration of the alias loop on the words `x` of a line. */
  function AliasLineStep(s: AliasRun, x: seq<string>): AliasRun
  {
    if IsAliasLine(x) then
      AliasRun(AliasTables(s.tables.alias[x[0] := x[1]], s.tables.rev[x[1] := x[0]]), s.bad)
    else if |x| > 0 then
      AliasRun(s.tables, s.bad + [x])
    else
      s
  }

  /** The alias loop over the words of every line, from the tables `t`. */
  function AliasRunOf(t: AliasTables, ws: seq<seq<string>>): AliasRun
  {
    if |ws| == 0 then AliasRun(t, []) else AliasLineStep(AliasRunOf(t, ws[..|ws| - 1]), ws[|ws| - 1])
  }

  /** The loop sets the pairs of the file in order and reports its rejected lines. */
  lemma {:induction false} AliasRunOfPairs(t: AliasTables, ws: seq<seq<string>>)
    ensures AliasRunOf(t, ws).tables == WithAliases(t, PairsOf(ws))
    ensures AliasRunOf(t, ws).bad == BadOf(ws)
  {
    if |ws| > 0 {
      var pre, x := ws[..|ws| - 1], ws[|ws| - 1];
      AliasRunOfPairs(t, pre);
      if IsAliasLine(x) {
        assert PairsOf(ws) == PairsOf(pre) + [(x[0], x[1])];
        WithAliasesSnoc(t, PairsOf(pre), x[0], x[1]);
      } else {
        assert PairsOf(ws) == PairsOf(pre) + [] == PairsOf(pre);
      }
      if IsAliasLine(x) || |x| == 0 {
        assert BadOf(ws) == BadOf(pre) + [] == BadOf(pre);
      }
    }
  }

  lemma AliasRunOfSnoc(t: AliasTables, ws: seq<seq<string>>, i: nat)
    requires i < |ws|
    ensures AliasRunOf(t, ws[..i + 1]) == AliasLineStep(AliasRunOf(t, ws[..i]), ws[i])
  {
    assert ws[..i + 1][..i] == ws[..i];
  }

  /**
   * When no alias and no DBLP key is defined twice, the loop from empty
   * tables yields inverse tables.
   */
  lemma {:induction false} DistinctAliasesInverse(ps: seq<(string, string)>)
    requires forall i, j :: 0 <= i < j < |ps| ==> ps[i].0 != ps[j].0 && ps[i].1 != ps[j].1
    ensures Inverse(WithAliases(AliasTables(map[], map[]), ps))
  {
    if |ps| > 0 {
      var pre := ps[..|ps| - 1];
      var (x0, x1) := ps[|ps| - 1];
      DistinctAliasesInverse(pre);
      assert Swapped(ps)[..|ps| - 1] == Swapped(pre);
      AssignKeys(map[], pre, x0);
      AssignKeys(map[], Swapped(pre), x1);
    }
  }

  /** Two aliases of one DBLP key leave the first alias without its reverse entry. */
  lemma SharedKeyBreaksInverse(a: string, b: string, d: string)
    requires a != b
    ensures !Inverse(WithAliases(AliasTables(map[], map[]), [(a, d), (b, d)]))
  {
    var ps := [(a, d), (b, d)];
    var t := WithAliases(AliasTables(map[], map[]), ps);
    var empty: map<string, string> := map[];
    AssignSnoc(empty, [], (a, d));
    AssignSnoc(empty, [(a, d)], (b, d));
    assert [] + [(a, d)] == [(a, d)] && [(a, d)] + [(b, d)] == ps;
    var sw: seq<(string, string)> := Swapped(ps);
    assert sw == [(d, a)] + [(d, b)];
    AssignSnoc(empty, [], (d, a));
    AssignSnoc(empty, [(d, a)], (d, b));
    assert [] + [(d, a)] == [(d, a)];
    assert t.alias[a] == d && t.rev[d] == b;
  }

  /** `find_revalias(c)`: the alias of a DBLP key, or the key itself. */
  function FindRevAlias(c: string, rev: map<string, string>): (r: string)
    ensures c !in rev ==> r == c
    ensures c in rev ==> r == rev[c]
  {
    if c in rev then rev[c] else c
  }

  /** `dblp_citations`: every citation mapped through `ALIAS`, same length and order. */
  function Resolve(cs: seq<string>, alias: map<string, string>): (r: seq<string>)
    ensures |r| == |cs|
    ensures forall i :: 0 <= i < |cs| ==> r[i] == (if cs[i] in alias then alias[cs[i]] else cs[i])
  {
    if |cs| == 0 then []
    else [if cs[0] in alias then alias[cs[0]] else cs[0]] + Resolve(cs[1..], alias)
  }

  /** `rev_citations_check`: the citations that are DBLP keys which also have an alias. */
  function Conflicts(cs: seq<string>, rev: map<string, string>): (r: seq<string>)
    ensures |r| <= |cs|
    ensures forall c :: c in r <==> c in cs && c in rev
  {
    if |cs| == 0 then []
    else
      assert forall c :: c in cs <==> c == cs[0] || c in cs[1..] by { assert cs == [cs[0]] + cs[1..]; }
      (if cs[0] in rev then [cs[0]] else []) + Conflicts(cs[1..], rev)
  }

  /** The reported citations keep their order: the filter distributes over concatenation. */
  lemma {:induction false} ConflictsAppend(a: seq<string>, b: seq<string>, rev: map<string, string>)
    ensures Conflicts(a + b, rev) == Conflicts(a, rev) + Conflicts(b, rev)
  {
    if |a| == 0 {
      assert a + b == b;
    } else {
      assert (a + b)[1..] == a[1..] + b;
      ConflictsAppend(a[1..], b, rev);
      AppendAssoc((if a[0] in rev then [a[0]] else []), Conflicts(a[1..], rev), Conflicts(b, rev));
    }
  }

  /** `latex_backmap`: every resolved key mapped back through `find_revalias`. */
  function Backmap(ds: seq<string>, rev: map<string, string>): (m: map<string, string>)
    ensures forall d :: d in m <==> d in ds
    ensures forall d :: d in m ==> m[d] == FindRevAlias(d, rev)
  {
    map d | d in ds :: FindRevAlias(d, rev)
  }

  /**
   * With inverse tables and no reported conflict, the backmap takes each
   * resolved key back to the very citation the document used, so distinct
   * citations resolve to distinct keys.
   */
  lemma BackmapRecoversCitation(cs: seq<string>, t: AliasTables)
    requires Inverse(t)
    requires Conflicts(cs, t.rev) == []
    ensures var ds := Resolve(cs, t.alias);
      forall i :: 0 <= i < |cs| ==> ds[i] in Backmap(ds, t.rev) && Backmap(ds, t.rev)[ds[i]] == cs[i]
    ensures var ds := Resolve(cs, t.alias);
      forall i, j :: 0 <= i < |cs| && 0 <= j < |cs| && cs[i] != cs[j] ==> ds[i] != ds[j]
  {
    var ds := Resolve(cs, t.alias);
    forall i | 0 <= i < |cs| ensures ds[i] in Backmap(ds, t.rev) && Backmap(ds, t.rev)[ds[i]] == cs[i] {
      assert cs[i] !in Conflicts(cs, t.rev);
      assert ds[i] in ds;
    }
  }

  /** The override tables the script keeps in the globals `ALIAS`, `REVALIAS` and `TITLESUB`. */
  class Tables {
    var alias: map<string, string>
    var revAlias: map<string, string>
    var titleSub: map<string, string>

    ghost predicate Valid()
      reads this
    {
      Consistent(AliasTables(alias, revAlias))
    }

    constructor ()
      ensures Valid()
      ensures alias == map[] && revAlias == map[] && titleSub == map[]
    {
      alias, revAlias, titleSub := map[], map[], map[];
    }

    /** The body of the loop over `dblp-alias.txt` for the words `x` of one line. */
    method AddAliasLine(x: seq<string>, bad0: seq<seq<string>>) returns (bad: seq<seq<string>>)
      modifies this
      ensures AliasRun(AliasTables(alias, revAlias), bad) == AliasLineStep(AliasRun(AliasTables(old(alias), old(revAlias)), bad0), x)
      ensures titleSub == old(titleSub)
    {
      bad := bad0;
      if |x| >= 2 && Contains(x[1], "DBLP:") {
        alias := alias[x[0] := x[1]];
        revAlias := revAlias[x[1] := x[0]];
      } else if |x| > 0 {
        bad := bad + [x];
      }
    }

    /** The loop over the lines of `dblp-alias.txt` (an absent file reads as no lines). */
    method LoadAliases(raw: seq<string>) returns (bad: seq<seq<string>>)
      requires Valid()
      modifies this
      ensures Valid()
      ensures AliasTables(alias, revAlias) == WithAliases(old(AliasTables(alias, revAlias)), AliasPairs(raw))
      ensures titleSub == old(titleSub)
      ensures bad == BadAliasLines(raw)
    {
      ghost var t0 := AliasTables(alias, revAlias);
      ghost var ws := FileWords(raw);
      bad := [];
      var i := 0;
      assert ws[..0] == [];
      while i < |raw|
        invariant 0 <= i <= |raw|
        invariant AliasRun(AliasTables(alias, revAlias), bad) == AliasRunOf(t0, ws[..i])
        invariant titleSub == old(titleSub)
      {
        var x := LineWords(raw[i]);
        assert x == ws[i];
        AliasRunOfSnoc(t0, ws, i);
        bad := AddAliasLine(x, bad);
        i := i + 1;
      }
      assert ws[..i] == ws;
      AliasRunOfPairs(t0, ws);
      WithAliasesConsistent(t0, AliasPairs(raw));
    }

    /** The body of the loop over `dblp-title.txt`: `x = l.split("|")`, and a pair when there are two parts. */
    method SetTitle(l: string)
      modifies this
      ensures titleSub == TitleLineSet(old(titleSub), l)
      ensures alias == old(alias) && revAlias == old(revAlias)
    {
      var x := Split(l, '|');
      if |x| == 2 {
        titleSub := titleSub[x[0] := x[1]];
      }
    }

    /** The loop over the lines of `dblp-title.txt` (an absent file reads as no lines). */
    method LoadTitles(raw: seq<string>)
      requires Valid()
      modifies this
      ensures Valid()
      ensures titleSub == Assign(old(titleSub), TitlePairs(raw))
      ensures alias == old(alias) && revAlias == old(revAlias)
    {
      var i := 0;
      while i < |raw|
        invariant 0 <= i <= |raw|
        invariant titleSub == Assign(old(titleSub), TitlePairs(raw[..i]))
        invariant alias == old(alias) && revAlias == old(revAlias)
      {
        TitleLineStep(old(titleSub), raw, i);
        SetTitle(CleanLine(raw[i]));
        i := i + 1;
      }
      assert raw[..i] == raw;
    }
  }
}
