/**
 * Reading the LaTeX `.aux` file: `find_citation` and `load_references`
 * (bibcloud.py:150-191). The file's lines are given as a sequence; the
 * `\bibstyle` value is returned instead of being stored in `gBibStyle`.
 */
module Extraction {
  import opened Strings
  import opened Results

  const CitationMarker: string := "\\citation{"
  const BiblatexMarker: string := "\\abx@aux@cite{"
  const BibstyleMarker: string := "\\bibstyle"

  /** The line holds one of the two citation markers. */
  predicate HasMarker(l: string) {
    Contains(l, CitationMarker) || Contains(l, BiblatexMarker)
  }

  /** `y` is the position of the first `{` in `l`. */
  predicate FirstOpen(l: string, y: int) {
    0 <= y < |l| && l[y] == '{' && '{' !in l[..y]
  }

  /**
   * What `find_citation` takes after the first `{` at `y`: the text up to the
   * next `}`; when no `}` follows, Python's slice end -1 drops the last character.
   */
  predicate CitationText(l: string, y: int, r: string)
    requires 0 <= y < |l|
  {
    if '}' in l[y + 1..] then
      y + 1 + |r| < |l| && l[y + 1..y + 1 + |r|] == r && l[y + 1 + |r|] == '}' && '}' !in r
    else
      r == (if y + 1 < |l| then l[y + 1..|l| - 1] else "")
  }

  /** A marker ends in `{`, so a line with a marker has a `{`. */
  lemma MarkerHasOpen(l: string)
    requires HasMarker(l)
    ensures '{' in l
  {
    if Contains(l, CitationMarker) {
      var i :| 0 <= i <= |l| && OccursAt(l, CitationMarker, i);
      assert l[i + 9] == CitationMarker[9] == '{';
    } else {
      var i :| 0 <= i <= |l| && OccursAt(l, BiblatexMarker, i);
      assert l[i + 13] == BiblatexMarker[13] == '{';
    }
  }

  /** `find_citation(l)`; both marker branches of the source take the same slice. */
  function FindCitation(l: string): string
  {
    if Find(l, CitationMarker) >= 0 then
      var y := Find(l, "{");
      var z := FindFrom(l, "}", if y < 0 then 0 else y);
      PySlice(l, y + 1, z)
    else if Find(l, BiblatexMarker) >= 0 then
      var y := Find(l, "{");
      var z := FindFrom(l, "}", if y < 0 then 0 else y);
      PySlice(l, y + 1, z)
    else
      ""
  }

  /** A line without marker yields `""`; otherwise the text after the first `{` up to the next `}`. */
  lemma FindCitationText(l: string)
    ensures !HasMarker(l) ==> FindCitation(l) == ""
    ensures HasMarker(l) ==> exists y :: FirstOpen(l, y) && CitationText(l, y, FindCitation(l))
  {
    if HasMarker(l) {
      var y := MarkedSlice(l);
      SliceAfterOpen(l, y);
    }
  }

  /** On a marked line `find_citation` slices from the first `{`, which exists. */
  lemma MarkedSlice(l: string) returns (y: int)
    requires HasMarker(l)
    ensures FirstOpen(l, y) && y == Find(l, "{")
    ensures FindCitation(l) == PySlice(l, y + 1, FindFrom(l, "}", y))
  {
    MarkerHasOpen(l);
    FindChar(l, '{');
    y := Find(l, "{");
  }

  /** The slice from the first `{` to the next `}` is the citation text. */
  lemma SliceAfterOpen(l: string, y: int)
    requires FirstOpen(l, y)
    ensures CitationText(l, y, PySlice(l, y + 1, FindFrom(l, "}", y)))
  {
    FindFromChar(l, '}', y);
    var z := FindFrom(l, "}", y);
    var r := PySlice(l, y + 1, z);
    if z >= 0 {
      assert z > y;
      assert l[y + 1..][z - y - 1] == '}';
      assert r == l[y + 1..z];
      assert l[y + 1..z] == l[y..z][1..];
    } else {
      assert l[y + 1..] == l[y..][1..];
    }
  }

  /** The keys one (stripped) line contributes: its citation text without surrounding spaces, split on commas. */
  function LineKeys(l: string): seq<string>
  {
    var c := FindCitation(l);
    if c == "" then [] else Split(Strip(c, ch => ch == ' '), ',')
  }

  /** The keys a raw line of the `.aux` file contributes once it is stripped of whitespace. */
  function AuxLineKeys(raw: string): seq<string>
  {
    LineKeys(Strip(raw, IsSpace))
  }

  /** The flattened key lists of all lines, in line order (bibcloud.py:186-189). */
  function CitationParts(lines: seq<string>): (r: seq<string>)
    ensures forall k :: k in r <==> exists i :: 0 <= i < |lines| && k in LineKeys(lines[i])
  {
    if |lines| == 0 then
      []
    else
      var rest := CitationParts(lines[1..]);
      assert forall i :: 1 <= i < |lines| ==> lines[i] == lines[1..][i - 1];
      LineKeys(lines[0]) + rest
  }

  /**
   * `[line.strip() for line in open(bibname)]`: one stripped line per line,
   * no longer than it, neither starting nor ending with whitespace; a line
   * without surrounding whitespace is kept as it is.
   */
  function StripLines(raw: seq<string>): (r: seq<string>)
    ensures |r| == |raw|
    ensures forall i :: 0 <= i < |raw| ==> r[i] == Strip(raw[i], IsSpace)
    ensures forall i :: 0 <= i < |raw| ==>
              && |r[i]| <= |raw[i]|
              && (r[i] == "" || (!IsSpace(r[i][0]) && !IsSpace(r[i][|r[i]| - 1])))
    ensures forall i :: 0 <= i < |raw| && (raw[i] == "" || (!IsSpace(raw[i][0]) && !IsSpace(raw[i][|raw[i]| - 1]))) ==>
              r[i] == raw[i]
  {
    seq(|raw|, i requires 0 <= i < |raw| => Strip(raw[i], IsSpace))
  }

  /** The citation keys of an `.aux` file: `sorted(set(...))` of all contributed keys. */
  function Citations(raw: seq<string>): (r: seq<string>)
    ensures StrictlySorted(r)
    ensures forall k :: k in r <==> exists i :: 0 <= i < |raw| && k in AuxLineKeys(raw[i])
  {
    var lines := StripLines(raw);
    assert forall i :: 0 <= i < |raw| ==> LineKeys(lines[i]) == AuxLineKeys(raw[i]);
    SortedSet(CitationParts(lines))
  }

  /** The order of the lines and repeated lines do not change the citation list. */
  lemma {:induction false} CitationsIgnoreLineOrder(a: seq<string>, b: seq<string>)
    requires forall l :: l in a <==> l in b
    ensures Citations(a) == Citations(b)
  {
    forall k ensures k in Citations(a) <==> k in Citations(b) {
      if k in Citations(a) {
        var i :| 0 <= i < |a| && k in AuxLineKeys(a[i]);
        assert a[i] in b;
        var j :| 0 <= j < |b| && b[j] == a[i];
      }
      if k in Citations(b) {
        var i :| 0 <= i < |b| && k in AuxLineKeys(b[i]);
        assert b[i] in a;
        var j :| 0 <= j < |a| && a[j] == b[i];
      }
    }
    SortedUnique(Citations(a), Citations(b));
  }

  lemma UnmarkedLineHasNoKeys(l: string)
    requires !HasMarker(Strip(l, IsSpace))
    ensures AuxLineKeys(l) == []
  {
    FindCitationText(Strip(l, IsSpace));
  }

  /** A line with neither marker contributes nothing. */
  lemma {:induction false} CitationsSkipUnmarkedLine(raw: seq<string>, l: string)
    requires !HasMarker(Strip(l, IsSpace))
    ensures Citations(raw + [l]) == Citations(raw)
  {
    var both := raw + [l];
    UnmarkedLineHasNoKeys(l);
    assert AuxLineKeys(both[|raw|]) == [] by { assert both[|raw|] == l; }
    forall k ensures k in Citations(both) <==> k in Citations(raw) {
      if k in Citations(both) {
        var i :| 0 <= i < |both| && k in AuxLineKeys(both[i]);
        assert i != |raw|;
        assert both[i] == raw[i];
      }
      if k in Citations(raw) {
        var i :| 0 <= i < |raw| && k in AuxLineKeys(raw[i]);
        assert both[i] == raw[i];
      }
    }
    SortedUnique(Citations(both), Citations(raw));
  }

  /** The (stripped) lines that mention `\bibstyle`. */
  function StyleLines(lines: seq<string>): (r: seq<string>)
    ensures forall l :: l in r <==> l in lines && Contains(l, BibstyleMarker)
  {
    if |lines| == 0 then []
    else
      assert forall l :: l in lines <==> l == lines[0] || l in lines[1..] by {
        assert lines == [lines[0]] + lines[1..];
      }
      (if Contains(lines[0], BibstyleMarker) then [lines[0]] else []) + StyleLines(lines[1..])
  }

  /** `v` is the text following the first `{` of `line`, up to the next `{` or `}` or the end. */
  predicate StyleValue(line: string, v: string) {
    exists y :: 0 <= y < |line| && FirstOpen(line, y) && y + 1 + |v| <= |line| && line[y + 1..y + 1 + |v|] == v
      && '{' !in v && '}' !in v
      && (y + 1 + |v| == |line| || line[y + 1 + |v|] == '{' || line[y + 1 + |v|] == '}')
  }

  datatype Fault =
    | BibstyleWithoutBrace(line: string)  // `x[1]` of `split("{")` raises IndexError

  /** The bibliography style: set only when exactly one line mentions `\bibstyle`. */
  function BibStyle(lines: seq<string>): (r: Result<string, Fault>)
    ensures |StyleLines(lines)| != 1 ==> r == Ok("")
    ensures |StyleLines(lines)| == 1 && '{' !in StyleLines(lines)[0] ==> r.Err?
    ensures |StyleLines(lines)| == 1 && '{' in StyleLines(lines)[0] ==>
              r.Ok? && StyleValue(StyleLines(lines)[0], r.value)
  {
    var styled := StyleLines(lines);
    if |styled| == 1 then
      var parts := Split(styled[0], '{');
      if |parts| < 2 then
        Err(BibstyleWithoutBrace(styled[0]))
      else
        var v := Split(parts[1], '}')[0];
        StyleValueOfSplit(styled[0], parts, v);
        Ok(v)
    else
      Ok("")
  }

  lemma StyleValueOfSplit(line: string, parts: seq<string>, v: string)
    requires parts == Split(line, '{') && |parts| >= 2
    requires v == Split(parts[1], '}')[0]
    ensures StyleValue(line, v)
  {
    SplitHead(line, '{');
    var y := |parts[0]|;
    var tail := Join(parts[1..], "{");
    assert line[..y] == parts[0];
    assert line[y] == '{';
    assert line[y + 1..] == tail;
    TailStartsWithStyle(parts, v);
    StyleValueFromTail(line, y, v, tail);
  }

  lemma TailStartsWithStyle(parts: seq<string>, v: string)
    requires |parts| >= 2 && forall i :: 0 <= i < |parts| ==> '{' !in parts[i]
    requires v == Split(parts[1], '}')[0]
    ensures var tail := Join(parts[1..], "{");
      && |v| <= |tail| && tail[..|v|] == v && '{' !in v && '}' !in v
      && (|v| == |tail| || tail[|v|] == '{' || tail[|v|] == '}')
  {
    var tail := Join(parts[1..], "{");
    var inner := Split(parts[1], '}');
    JoinStart(parts[1..], "{");
    assert tail[..|parts[1]|] == parts[1];
    if '}' in parts[1] {
      SplitHead(parts[1], '}');
      assert parts[1] == v + "}" + Join(inner[1..], "}");
      assert parts[1][|v|] == '}';
      assert parts[1][..|v|] == v;
      assert v == parts[1][..|v|];
      assert forall i :: 0 <= i < |v| ==> v[i] == parts[1][i];
    } else {
      assert v == parts[1];
      if |parts| > 2 {
        assert tail == parts[1] + "{" + Join(parts[2..], "{");
      }
    }
  }

  lemma StyleValueFromTail(line: string, y: int, v: string, tail: string)
    requires 0 <= y < |line| && line[y] == '{' && '{' !in line[..y] && line[y + 1..] == tail
    requires |v| <= |tail| && tail[..|v|] == v && '{' !in v && '}' !in v
    requires |v| == |tail| || tail[|v|] == '{' || tail[|v|] == '}'
    ensures StyleValue(line, v)
  {
    assert FirstOpen(line, y);
    assert line[y + 1..y + 1 + |v|] == tail[..|v|];
  }

  /** What `load_references` yields: the keys and the style. */
  datatype References = References(keys: seq<string>, style: string)

  /** `load_references` on the lines of an existing `.aux` file. */
  function LoadReferences(raw: seq<string>): (r: Result<References, Fault>)
    ensures r.Ok? <==> BibStyle(StripLines(raw)).Ok?
    ensures r.Ok? ==> r.value.keys == Citations(raw) && r.value.style == BibStyle(StripLines(raw)).value
  {
    match BibStyle(StripLines(raw))
    case Err(e) => Err(e)
    case Ok(style) => Ok(References(Citations(raw), style))
  }
}
