/**
 * The local DBLP cache of bibcloud.py:210-260 and 429-435. The XML file
 * `.bibcloud/DBLP.xml` is abstracted to the sequence of its root's children;
 * each child is a record with a tag, a `key` attribute and its own children.
 * The script indexes the records whose tag is an entry type under
 * `"DBLP:" + key` in the dictionary `DBLP_article`, splits the resolved
 * citations into foreign ones (not DBLP keys) and missing ones (DBLP keys not
 * in the cache), and fetches each missing one by the key after `DBLP:`.
 */
module Cache {
  import opened Strings

  /** A child element of a cached record: its tag and its text. */
  datatype Child = Child(tag: string, text: string)

  /** A record of the cache: its element tag, its `key` attribute and its children in document order. */
  datatype Record = Record(tag: string, key: string, children: seq<Child>)

  const DblpPrefix: string := "DBLP:"

  /** The four element tags the script indexes and emits. */
  predicate IsEntryTag(tag: string) {
    tag == "article" || tag == "inproceedings" || tag == "book" || tag == "incollection"
  }

  /** `DBLP_article` after the loop over the root's children `es`, starting from `m`. */
  function Indexed(m: map<string, Record>, es: seq<Record>): map<string, Record>
  {
    if |es| == 0 then
      m
    else
      var r := es[|es| - 1];
      var prev := Indexed(m, es[..|es| - 1]);
      if IsEntryTag(r.tag) then prev[DblpPrefix + r.key := r] else prev
  }

  lemma IndexedSnoc(m: map<string, Record>, es: seq<Record>, i: nat)
    requires i < |es|
    ensures Indexed(m, es[..i + 1])
         == if IsEntryTag(es[i].tag) then Indexed(m, es[..i])[DblpPrefix + es[i].key := es[i]] else Indexed(m, es[..i])
  {
    assert es[..i + 1][..i] == es[..i];
  }

  /** After the loop a key is present exactly when it was before or some entry record carries it. */
  lemma {:induction false} IndexedKeys(m: map<string, Record>, es: seq<Record>, k: string)
    ensures k in Indexed(m, es) <==>
              k in m || exists i :: 0 <= i < |es| && IsEntryTag(es[i].tag) && DblpPrefix + es[i].key == k
  {
    if |es| > 0 {
      var pre := es[..|es| - 1];
      IndexedKeys(m, pre, k);
      if exists i :: 0 <= i < |pre| && IsEntryTag(pre[i].tag) && DblpPrefix + pre[i].key == k {
        var i :| 0 <= i < |pre| && IsEntryTag(pre[i].tag) && DblpPrefix + pre[i].key == k;
        assert es[i] == pre[i];
      }
      if exists i :: 0 <= i < |es| && IsEntryTag(es[i].tag) && DblpPrefix + es[i].key == k {
        var i :| 0 <= i < |es| && IsEntryTag(es[i].tag) && DblpPrefix + es[i].key == k;
        if i < |pre| {
          assert pre[i] == es[i];
        }
      }
    }
  }

  /** The record a key is bound to is the last entry record in the file that carries it. */
  lemma {:induction false} IndexedLastWins(m: map<string, Record>, es: seq<Record>, i: nat)
    requires i < |es| && IsEntryTag(es[i].tag)
    requires forall j :: i < j < |es| && IsEntryTag(es[j].tag) ==> es[j].key != es[i].key
    ensures DblpPrefix + es[i].key in Indexed(m, es)
    ensures Indexed(m, es)[DblpPrefix + es[i].key] == es[i]
  {
    var pre := es[..|es| - 1];
    if i < |es| - 1 {
      IndexedLastWins(m, pre, i);
      var r := es[|es| - 1];
      if IsEntryTag(r.tag) {
        KeyedApart(r.key, es[i].key);
      }
    }
  }

  /** Different keys give different dictionary keys. */
  lemma KeyedApart(a: string, b: string)
    requires a != b
    ensures DblpPrefix + a != DblpPrefix + b
  {
    assert (DblpPrefix + a)[|DblpPrefix|..] == a;
    assert (DblpPrefix + b)[|DblpPrefix|..] == b;
  }

  /** Every record of the dictionary is an entry record stored under `"DBLP:"` and its own key. */
  ghost predicate WellKeyed(m: map<string, Record>) {
    forall k :: k in m ==> IsEntryTag(m[k].tag) && DblpPrefix + m[k].key == k
  }

  lemma {:induction false} IndexedWellKeyed(m: map<string, Record>, es: seq<Record>)
    requires WellKeyed(m)
    ensures WellKeyed(Indexed(m, es))
  {
    if |es| > 0 {
      IndexedWellKeyed(m, es[..|es| - 1]);
    }
  }

  /** `c.find("DBLP:")==0`: the citation is a DBLP key. */
  predicate IsDblp(c: string) {
    Find(c, DblpPrefix) == 0
  }

  /** A citation is a DBLP key exactly when it starts with `DBLP:`. */
  lemma IsDblpStartsWith(c: string)
    ensures IsDblp(c) <==> StartsWith(c, DblpPrefix)
  {
    if StartsWith(c, DblpPrefix) {
      assert OccursAt(c, DblpPrefix, 0);
    }
  }

  /** `foreign_citations`: the citations that are not DBLP keys, in order (see `ForeignAppend`). */
  function Foreign(cs: seq<string>): (r: seq<string>)
    ensures |r| <= |cs|
    ensures forall c :: c in r <==> c in cs && !IsDblp(c)
  {
    if |cs| == 0 then []
    else
      assert forall c :: c in cs <==> c == cs[0] || c in cs[1..] by { assert cs == [cs[0]] + cs[1..]; }
      (if IsDblp(cs[0]) then [] else [cs[0]]) + Foreign(cs[1..])
  }

  /** `missing_citations`: the DBLP keys the cache does not hold, in order (see `MissingAppend`). */
  function Missing(cs: seq<string>, articles: map<string, Record>): (r: seq<string>)
    ensures |r| <= |cs|
    ensures forall c :: c in r <==> c in cs && IsDblp(c) && c !in articles
  {
    if |cs| == 0 then []
    else
      assert forall c :: c in cs <==> c == cs[0] || c in cs[1..] by { assert cs == [cs[0]] + cs[1..]; }
      (if IsDblp(cs[0]) && cs[0] !in articles then [cs[0]] else []) + Missing(cs[1..], articles)
  }

  /** The foreign citations keep their order: the filter distributes over concatenation. */
  lemma {:induction false} ForeignAppend(a: seq<string>, b: seq<string>)
    ensures Foreign(a + b) == Foreign(a) + Foreign(b)
  {
    if |a| == 0 {
      assert a + b == b;
    } else {
      assert (a + b)[1..] == a[1..] + b;
      ForeignAppend(a[1..], b);
      AppendAssoc((if IsDblp(a[0]) then [] else [a[0]]), Foreign(a[1..]), Foreign(b));
    }
  }

  /** The missing citations keep their order: the filter distributes over concatenation. */
  lemma {:induction false} MissingAppend(a: seq<string>, b: seq<string>, articles: map<string, Record>)
    ensures Missing(a + b, articles) == Missing(a, articles) + Missing(b, articles)
  {
    if |a| == 0 {
      assert a + b == b;
    } else {
      assert (a + b)[1..] == a[1..] + b;
      MissingAppend(a[1..], b, articles);
      AppendAssoc((if IsDblp(a[0]) && a[0] !in articles then [a[0]] else []), Missing(a[1..], articles), Missing(b, articles));
    }
  }

  /** Every citation is exactly one of: foreign, missing, or a DBLP key the cache holds. */
  lemma Classified(cs: seq<string>, articles: map<string, Record>, c: string)
    requires c in cs
    ensures c in Foreign(cs) || c in Missing(cs, articles) || (IsDblp(c) && c in articles)
    ensures !(c in Foreign(cs) && c in Missing(cs, articles))
    ensures c in articles ==> c !in Missing(cs, articles)
  {
  }

  /** `key = c[5:]`: the key the script fetches for citation `c`. */
  function FetchKey(c: string): (key: string)
    ensures IsDblp(c) ==> DblpPrefix + key == c
    ensures |c| >= |DblpPrefix| ==> |key| == |c| - |DblpPrefix|
    ensures |c| < |DblpPrefix| ==> key == ""
  {
    IsDblpStartsWith(c);
    PySlice(c, 5, |c|)
  }

  /** The in-memory `DBLP_article` dictionary and the counting loop that fills it. */
  class DblpCache {
    var articles: map<string, Record>

    constructor ()
      ensures articles == map[]
    {
      articles := map[];
    }

    /**
     * One pass over the root's children (bibcloud.py:217-221 and 431-435):
     * every entry record is stored under its DBLP key; all children are counted.
     */
    method Load(es: seq<Record>) returns (numChildren: nat)
      modifies this
      ensures articles == Indexed(old(articles), es)
      ensures numChildren == |es|
    {
      ghost var m0 := articles;
      numChildren := 0;
      var i := 0;
      assert es[..0] == [];
      while i < |es|
        invariant 0 <= i <= |es|
        invariant articles == Indexed(m0, es[..i])
        invariant numChildren == i
      {
        var child := es[i];
        IndexedSnoc(m0, es, i);
        numChildren := numChildren + 1;
        if child.tag == "article" || child.tag == "inproceedings" || child.tag == "book" || child.tag == "incollection" {
          articles := articles[DblpPrefix + child.key := child];
        }
        i := i + 1;
      }
      assert es[..i] == es;
    }
  }
}
