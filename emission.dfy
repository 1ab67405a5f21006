/**
 * The writing of `dblp.bib` (bibcloud.py:437-507). The file is the sequence of
 * chunks passed to `F.write`, in order; its text is their concatenation. For
 * every resolved citation the cache holds, one BibTeX entry is written: a
 * header, the author line, one line per child whose tag the entry type lists
 * (in the record's child order, with at most one `ee`/`doi` line), the
 * booktitle synthesised for conference papers, a workshop keyword, a note on
 * aliased keys and the closing brace.
 */
module Emission {
  import opened Results
  import opened Strings
  import opened Cache
  import opened Escaping
  import opened Overrides

  // ------------------------------------------------------------------ constants

  /** How a listed child is written: verbatim, in double braces, or as a link. */
  datatype FieldMode = Id | Double | Ee

  /** `DBLP_fieldlist[tag]`: the children written for each entry type and how. */
  function FieldList(tag: string): map<string, FieldMode>
  {
    if tag == "article" then
      map["title" := Double, "journal" := Id, "volume" := Id, "number" := Id,
          "year" := Id, "ee" := Ee, "pages" := Id]
    else if tag == "inproceedings" || tag == "incollection" then
      map["title" := Double, "year" := Id, "pages" := Id, "ee" := Ee]
    else if tag == "book" then
      map["title" := Double, "booktitle" := Id, "series" := Id, "publisher" := Id, "year" := Id]
    else
      map[]
  }

  /**
   * The listed names are single words, none of them is a line the emitter
   * writes by itself, and `ee` is the only one written as a link.
   */
  lemma FieldListNames(tag: string, n: string)
    requires n in FieldList(tag)
    ensures ' ' !in n
    ensures n != "author" && n != "keywords" && n != "bibsource" && n != "doi"
    ensures FieldList(tag)[n] == Ee <==> n == "ee"
  {
  }

  /** `NOACKCONFERENCE`: venue names DBLP spells out, and the name the bibliography uses. */
  const NoAckConference: map<string, string> := map[
    "ACM Conference on Computer and Communications Security" := "ACM Conference on Computer and Communications Security",
    "USENIX Annual Technical Conference, General Track" := "USENIX Annual Technical Conference",
    "USENIX Annual Technical Conference" := "USENIX",
    "Integrated Network Management" := "Integrated Network Management",
    "Virtual Machine Research and Technology Symposium" := "Virtual Machine Research and Technology Symposium",
    "Workshop on I/O Virtualization" := "Workshop on I/O Virtualization",
    "Best of PLDI" := "Best of PLDI",
    "SIGMOD Conference" := "SIGMOD Conference",
    "IEEE Symposium on Security and Privacy" := "IEEE Symposium on Security and Privacy",
    "USENIX Summer" := "USENIX Summer",
    "USENIX Annual Technical Conference, FREENIX Track" := "USENIX Annual Technical Conference, FREENIX Track",
    "Internet Measurement Conference" := "IMC",
    "Internet Measurement Comference" := "IMC",
    "Internet Measurement Workshop" := "IMC",
    "IPDPS Workshops" := "IPDPS",
    "USENIX Security Symposium" := "USS",
    "ACM SIGOPS European Workshop" := "ACM SIGOPS European Workshop",
    "3PGCIC" := "threePGCIC",
    "Big Data" := "bigdata",
    "INFLOW@SOSP" := "inflow",
    "IEEE Real Time Technology and Applications Symposium" := "rtas",
    "Hot Interconnects" := "hoti",
    "Workshop on Hot Topics in Operating Systems" := "hotos",
    "IEEE WISA" := "IEEE WISA"
  ]

  /** `WORKSHOPS`: venues whose papers get the workshop keyword. */
  const Workshops: seq<string> := ["HotOS", "KBNets@SIGCOMM"]

  /** The style under which no `ee`/`doi` line is written. */
  const AbbrvNat: string := "abbrvnat"

  /** The two chunks every `dblp.bib` starts with (the misspelling is the script's). */
  const FileHeader: seq<string> := ["%%% This file is automatically genreated by bibcloud.py\n", "%%% DO NOT EDIT\n\n\n"]

  /** What the emitter reads besides the record: `gBibStyle`, `TITLESUB` and `HTML_TO_BIB`. */
  datatype Config = Config(style: string, titleSub: map<string, string>, table: map<char, string>, venues: map<string, string>)

  /** Why the script stops while writing: `sys.exit(1)` on an unknown tag, or an `AttributeError`. */
  datatype Fault =
    | UnknownTag(tag: string)
    | MissingYear(citation: string)
    | MissingBooktitle(citation: string)

  /** The chunks written so far and, if the script stopped, why. */
  datatype Emitted = Emitted(chunks: seq<string>, fault: Option<Fault>)

  // ------------------------------------------------------------------ line names

  /** The chunk is a field line for `name`. */
  predicate Names(chunk: string, name: string) {
    StartsWith(chunk, FieldPrefix(name))
  }

  /** How many chunks are field lines for `name`. */
  function CountNamed(chunks: seq<string>, name: string): nat
  {
    if |chunks| == 0 then 0 else (if Names(chunks[0], name) then 1 else 0) + CountNamed(chunks[1..], name)
  }

  lemma {:induction false} CountNamedAppend(a: seq<string>, b: seq<string>, name: string)
    ensures CountNamed(a + b, name) == CountNamed(a, name) + CountNamed(b, name)
  {
    if |a| == 0 {
      assert a + b == b;
    } else {
      assert (a + b)[1..] == a[1..] + b;
      CountNamedAppend(a[1..], b, name);
    }
  }

  lemma FieldAssignNames(name: string, value: string, end: string)
    ensures Names(FieldAssign(name, value, end), name)
  {
    var p := FieldPrefix(name);
    assert FieldAssign(name, value, end) == p + (" " + value + end);
  }

  /** A line names one field only, as field names hold no space. */
  lemma NamesUnique(chunk: string, a: string, b: string)
    requires Names(chunk, a) && Names(chunk, b) && ' ' !in a && ' ' !in b
    ensures a == b
  {
    NamePosition(chunk, a);
    NamePosition(chunk, b);
    assert |a| == |b|;
    assert forall i :: 0 <= i < |a| ==> a[i] == chunk[2 + i] == b[i];
  }

  /** In a field line for `a`, the name sits at offset 2 and is followed by a space. */
  lemma NamePosition(chunk: string, a: string)
    requires Names(chunk, a) && ' ' !in a
    ensures |chunk| > 2 + |a| && chunk[2 + |a|] == ' '
    ensures forall i :: 0 <= i < |a| ==> chunk[2 + i] == a[i] && a[i] != ' '
  {
    var pa := FieldPrefix(a);
    assert pa == chunk[..|pa|];
    assert forall i :: 0 <= i < |a| ==> pa[2 + i] == a[i] && a[i] in a;
    assert pa[2 + |a|] == ' ';
  }

  lemma CountNamedOne(chunk: string, field: string, name: string)
    requires Names(chunk, field) && ' ' !in field && ' ' !in name
    ensures CountNamed([chunk], name) == if field == name then 1 else 0
  {
    assert [chunk][1..] == [];
    if Names(chunk, name) {
      NamesUnique(chunk, field, name);
    }
  }

  /** A chunk that does not start with a space is no field line. */
  lemma CountNamedNone(chunk: string, name: string)
    requires |chunk| == 0 || chunk[0] != ' '
    ensures CountNamed([chunk], name) == 0
  {
    assert [chunk][1..] == [];
    assert FieldPrefix(name)[0] == ' ';
  }

  // ------------------------------------------------------------------ header and authors

  /** The first chunk of an entry; an `incollection` is written as `@inproceedings`. */
  function HeaderLine(tag: string, texKey: string): (line: string)
    ensures |line| > 0 && line[0] == '\n'
  {
    "\n@" + (if tag == "incollection" then "inproceedings" else tag) + "{" + texKey + ",\n"
  }

  /** An `incollection` entry gets exactly the header of an `inproceedings` entry. */
  lemma IncollectionHeader(texKey: string)
    ensures HeaderLine("incollection", texKey) == HeaderLine("inproceedings", texKey)
    ensures StartsWith(HeaderLine("incollection", texKey), "\n@inproceedings{")
  {
    var h := "\n@inproceedings{";
    assert HeaderLine("incollection", texKey) == h + (texKey + ",\n");
  }

  /** `[a.text for a in xml if a.tag=="author"]`: the author texts in child order. */
  function AuthorTexts(cs: seq<Child>): (r: seq<string>)
    ensures |r| <= |cs|
    ensures forall t :: t in r <==> exists i :: 0 <= i < |cs| && cs[i].tag == "author" && cs[i].text == t
  {
    if |cs| == 0 then []
    else
      var rest := AuthorTexts(cs[1..]);
      assert forall i :: 1 <= i < |cs| ==> cs[i] == cs[1..][i - 1];
      (if cs[0].tag == "author" then [cs[0].text] else []) + rest
  }

  lemma {:induction false} AuthorTextsSnoc(cs: seq<Child>, a: Child)
    ensures AuthorTexts(cs + [a]) == AuthorTexts(cs) + (if a.tag == "author" then [a.text] else [])
  {
    if |cs| == 0 {
      assert cs + [a] == [a];
      assert [a][1..] == [];
    } else {
      assert (cs + [a])[1..] == cs[1..] + [a];
      AuthorTextsSnoc(cs[1..], a);
    }
  }

  /** The authors as written: each text converted, then trimmed of a DBLP disambiguation number. */
  function AuthorNames(cs: seq<Child>, table: map<char, string>): seq<string>
  {
    TrimmedNames(AuthorTexts(cs), table)
  }

  /** Each author text converted and trimmed. */
  function TrimmedNames(texts: seq<string>, table: map<char, string>): (names: seq<string>)
    ensures |names| == |texts|
  {
    if |texts| == 0 then []
    else TrimmedNames(texts[..|texts| - 1], table) + [AuthorTrim(HtmlToBibtex(texts[|texts| - 1], table))]
  }

  lemma TrimmedNamesSnoc(texts: seq<string>, x: string, table: map<char, string>)
    ensures TrimmedNames(texts + [x], table) == TrimmedNames(texts, table) + [AuthorTrim(HtmlToBibtex(x, table))]
  {
    var s := texts + [x];
    assert s[..|s| - 1] == texts && s[|s| - 1] == x;
  }

  /** The author line: the names joined with ` and `. */
  function AuthorLine(cs: seq<Child>, table: map<char, string>): string
  {
    BracedField("author", Join(AuthorNames(cs, table), " and "))
  }

  lemma {:induction false} AuthorNamesSnoc(cs: seq<Child>, a: Child, table: map<char, string>)
    ensures AuthorNames(cs + [a], table)
         == AuthorNames(cs, table) + (if a.tag == "author" then [AuthorTrim(HtmlToBibtex(a.text, table))] else [])
  {
    AuthorTextsSnoc(cs, a);
    if a.tag == "author" {
      TrimmedNamesSnoc(AuthorTexts(cs), a.text, table);
    } else {
      assert AuthorTexts(cs + [a]) == AuthorTexts(cs) + [] == AuthorTexts(cs);
      assert AuthorNames(cs, table) + [] == AuthorNames(cs, table);
    }
  }

  /**
   * One name per author child, in order: a further author child adds
   * ` and ` and its name; any other child leaves the line as it is.
   */
  lemma {:induction false} AuthorLineSnoc(cs: seq<Child>, a: Child, table: map<char, string>)
    requires |AuthorTexts(cs)| > 0
    ensures a.tag == "author" ==>
              AuthorLine(cs + [a], table)
              == BracedField("author", Join(AuthorNames(cs, table), " and ") + " and " + AuthorTrim(HtmlToBibtex(a.text, table)))
    ensures a.tag != "author" ==> AuthorLine(cs + [a], table) == AuthorLine(cs, table)
  {
    AuthorNamesSnoc(cs, a, table);
    var names := AuthorNames(cs, table);
    if a.tag == "author" {
      var last := AuthorTrim(HtmlToBibtex(a.text, table));
      assert AuthorNames(cs + [a], table) == names + [last];
      assert |names| == |AuthorTexts(cs)| > 0;
      JoinSnoc(names, last, " and ");
      assert Join(names + [last], " and ") == Join(names, " and ") + " and " + last;
      assert AuthorLine(cs + [a], table) == BracedField("author", Join(names + [last], " and "));
    } else {
      assert names + [] == names;
      assert AuthorNames(cs + [a], table) == names;
    }
  }

  // ------------------------------------------------------------------ listed children

  /** The line for a listed child that is not a link: verbatim, or a title in double braces. */
  function PlainFieldLine(name: string, mode: FieldMode, text: string, cfg: Config): (line: string)
    requires mode != Ee
    ensures Names(line, name)
  {
    var value :=
      if mode == Id then HtmlToBibtex(text, cfg.table)
      else if name == "title" && text in cfg.titleSub then "{" + EscapePercentAmp(cfg.titleSub[text]) + "}"
      else "{" + EscapePercentAmp(HtmlToBibtex(text, cfg.table)) + "}";
    FieldAssignNames(name, "{" + value + "}", ",\n");
    BracedField(name, value)
  }

  /**
   * A title with an entry in `TITLESUB` is written from the substitute, which
   * is not run through `html_to_bibtex`: the conversion table plays no part.
   */
  lemma TitleSubstituted(text: string, cfg: Config)
    requires text in cfg.titleSub
    ensures PlainFieldLine("title", Double, text, cfg) == BracedField("title", "{" + EscapePercentAmp(cfg.titleSub[text]) + "}")
    ensures forall t :: PlainFieldLine("title", Double, text, cfg) == PlainFieldLine("title", Double, text, cfg.(table := t))
  {
  }

  /** The child is written as a link. */
  predicate IsEe(a: Child, fields: map<string, FieldMode>) {
    a.tag in fields && fields[a.tag] == Ee
  }

  /** The loop's state: the chunks written for the children so far and the flag `processedEE`. */
  datatype FieldsState = FieldsState(chunks: seq<string>, eeDone: bool)

  /** One turn of the loop over the record's children. */
  function FieldStep(st: FieldsState, fields: map<string, FieldMode>, a: Child, cfg: Config): FieldsState
  {
    if a.tag !in fields then st
    else if fields[a.tag] == Ee then
      if st.eeDone then st else FieldsState(st.chunks + [DoiEeLine(a.text)], true)
    else FieldsState(st.chunks + [PlainFieldLine(a.tag, fields[a.tag], a.text, cfg)], st.eeDone)
  }

  /** The loop over the children `cs`, starting with `processedEE` set to `eeDone`. */
  function FieldsRun(cs: seq<Child>, fields: map<string, FieldMode>, eeDone: bool, cfg: Config): FieldsState
  {
    if |cs| == 0 then FieldsState([], eeDone)
    else FieldStep(FieldsRun(cs[..|cs| - 1], fields, eeDone, cfg), fields, cs[|cs| - 1], cfg)
  }

  lemma FieldsRunAppend(cs: seq<Child>, a: Child, fields: map<string, FieldMode>, eeDone: bool, cfg: Config)
    ensures FieldsRun(cs + [a], fields, eeDone, cfg) == FieldStep(FieldsRun(cs, fields, eeDone, cfg), fields, a, cfg)
  {
    var s := cs + [a];
    assert s[..|s| - 1] == cs && s[|s| - 1] == a;
  }

  lemma {:induction false} FieldsRunSnoc(cs: seq<Child>, i: nat, fields: map<string, FieldMode>, eeDone: bool, cfg: Config)
    requires i < |cs|
    ensures FieldsRun(cs[..i + 1], fields, eeDone, cfg) == FieldStep(FieldsRun(cs[..i], fields, eeDone, cfg), fields, cs[i], cfg)
  {
    assert cs[..i + 1][..i] == cs[..i];
  }

  /** The line the reference writes for one child, if any. */
  function PlainTail(a: Child, fields: map<string, FieldMode>, cfg: Config): seq<string>
  {
    if a.tag in fields && fields[a.tag] != Ee then [PlainFieldLine(a.tag, fields[a.tag], a.text, cfg)] else []
  }

  /** The reference for what the loop writes besides links: one line per listed non-link child, in order. */
  function PlainFieldLines(cs: seq<Child>, fields: map<string, FieldMode>, cfg: Config): seq<string>
  {
    if |cs| == 0 then []
    else
      PlainTail(cs[0], fields, cfg) + PlainFieldLines(cs[1..], fields, cfg)
  }

  lemma {:induction false} PlainFieldLinesSnoc(cs: seq<Child>, a: Child, fields: map<string, FieldMode>, cfg: Config)
    ensures PlainFieldLines(cs + [a], fields, cfg) == PlainFieldLines(cs, fields, cfg) + PlainTail(a, fields, cfg)
  {
    var t := PlainTail(a, fields, cfg);
    if |cs| == 0 {
      assert cs + [a] == [a];
      assert [a][1..] == [];
      assert PlainFieldLines([a], fields, cfg) == t + [];
    } else {
      var s := cs + [a];
      assert s[0] == cs[0] && s[1..] == cs[1..] + [a];
      PlainFieldLinesSnoc(cs[1..], a, fields, cfg);
      AppendAssoc(PlainTail(cs[0], fields, cfg), PlainFieldLines(cs[1..], fields, cfg), t);
    }
  }

  /** The index of the first link child, or -1. */
  function FirstEe(cs: seq<Child>, fields: map<string, FieldMode>): (k: int)
    ensures -1 <= k < |cs|
    ensures k == -1 <==> forall i :: 0 <= i < |cs| ==> !IsEe(cs[i], fields)
    ensures k >= 0 ==> IsEe(cs[k], fields) && forall j :: 0 <= j < k ==> !IsEe(cs[j], fields)
  {
    if |cs| == 0 then -1
    else if IsEe(cs[0], fields) then 0
    else
      var k := FirstEe(cs[1..], fields);
      assert forall i :: 1 <= i < |cs| ==> cs[i] == cs[1..][i - 1];
      if k < 0 then -1 else k + 1
  }

  lemma {:induction false} FirstEeSnoc(cs: seq<Child>, a: Child, fields: map<string, FieldMode>)
    ensures FirstEe(cs + [a], fields)
         == if FirstEe(cs, fields) >= 0 then FirstEe(cs, fields) else if IsEe(a, fields) then |cs| else -1
  {
    var s := cs + [a];
    assert forall i :: 0 <= i < |cs| ==> s[i] == cs[i];
    assert s[|cs|] == a;
    var k := FirstEe(cs, fields);
    var k' := FirstEe(s, fields);
    if k >= 0 {
      assert IsEe(s[k], fields);
    } else if IsEe(a, fields) {
      assert k' >= 0;
    }
  }

  /** With `processedEE` already set, no link is written: only the other listed children, in order. */
  lemma {:induction false} FieldsAfterEe(cs: seq<Child>, fields: map<string, FieldMode>, cfg: Config)
    ensures FieldsRun(cs, fields, true, cfg) == FieldsState(PlainFieldLines(cs, fields, cfg), true)
  {
    if |cs| > 0 {
      var pre := cs[..|cs| - 1];
      var a := cs[|cs| - 1];
      FieldsAfterEe(pre, fields, cfg);
      PlainFieldLinesSnoc(pre, a, fields, cfg);
      assert pre + [a] == cs;
    }
  }

  /** One turn of the loop appends the child's line, or its link line if none was written yet. */
  lemma FieldStepAppends(st: FieldsState, fields: map<string, FieldMode>, a: Child, cfg: Config)
    ensures FieldStep(st, fields, a, cfg).eeDone == (st.eeDone || IsEe(a, fields))
    ensures FieldStep(st, fields, a, cfg).chunks
         == st.chunks + (if IsEe(a, fields) then (if st.eeDone then [] else [DoiEeLine(a.text)]) else PlainTail(a, fields, cfg))
  {
  }

  /** The reference lines with the link line of the first link child at its place. */
  function FirstLinkOnly(cs: seq<Child>, fields: map<string, FieldMode>, cfg: Config): FieldsState
  {
    var k := FirstEe(cs, fields);
    if k < 0 then FieldsState(PlainFieldLines(cs, fields, cfg), false)
    else FieldsState(PlainFieldLines(cs[..k], fields, cfg) + [DoiEeLine(cs[k].text)] + PlainFieldLines(cs[k + 1..], fields, cfg), true)
  }

  /**
   * With `processedEE` clear, exactly the first link child is written, as its
   * `output_doi_ee` line and at its place; every later link child is skipped.
   */
  lemma {:induction false} FieldsBeforeEe(cs: seq<Child>, fields: map<string, FieldMode>, cfg: Config)
    ensures FieldsRun(cs, fields, false, cfg) == FirstLinkOnly(cs, fields, cfg)
  {
    if |cs| > 0 {
      var pre := cs[..|cs| - 1];
      var a := cs[|cs| - 1];
      assert pre + [a] == cs;
      FieldsBeforeEe(pre, fields, cfg);
      FieldsBeforeEeSnoc(pre, a, fields, cfg);
    }
  }

  /** The step of the induction above: one more child after `pre`. */
  lemma FieldsBeforeEeSnoc(pre: seq<Child>, a: Child, fields: map<string, FieldMode>, cfg: Config)
    requires FieldsRun(pre, fields, false, cfg) == FirstLinkOnly(pre, fields, cfg)
    ensures FieldsRun(pre + [a], fields, false, cfg) == FirstLinkOnly(pre + [a], fields, cfg)
  {
    FieldsRunAppend(pre, a, fields, false, cfg);
    if FirstEe(pre, fields) >= 0 {
      LinkAlreadyWritten(pre, a, fields, cfg, FirstEe(pre, fields));
    } else {
      LinkNotYetWritten(pre, a, fields, cfg);
    }
  }

  /** Before any link child, a further child adds its link line if it is one and its reference line otherwise. */
  lemma LinkNotYetWritten(pre: seq<Child>, a: Child, fields: map<string, FieldMode>, cfg: Config)
    requires FirstEe(pre, fields) < 0
    requires FieldsRun(pre, fields, false, cfg) == FirstLinkOnly(pre, fields, cfg)
    ensures FieldStep(FieldsRun(pre, fields, false, cfg), fields, a, cfg) == FirstLinkOnly(pre + [a], fields, cfg)
  {
    var cs := pre + [a];
    var st := FieldsRun(pre, fields, false, cfg);
    assert st.chunks == PlainFieldLines(pre, fields, cfg) && !st.eeDone;
    FirstEeSnoc(pre, a, fields);
    FieldStepAppends(st, fields, a, cfg);
    if IsEe(a, fields) {
      assert cs[..|pre|] == pre;
      assert cs[|pre| + 1..] == [];
      assert FirstEe(cs, fields) == |pre|;
      assert FirstLinkOnly(cs, fields, cfg) == FieldsState(PlainFieldLines(pre, fields, cfg) + [DoiEeLine(a.text)] + [], true);
    } else {
      PlainFieldLinesSnoc(pre, a, fields, cfg);
      assert FirstEe(cs, fields) == -1;
    }
  }

  /** After the link line, a further child adds only its reference line. */
  lemma LinkAlreadyWritten(pre: seq<Child>, a: Child, fields: map<string, FieldMode>, cfg: Config, k: int)
    requires k == FirstEe(pre, fields) && k >= 0
    requires FieldsRun(pre, fields, false, cfg) == FirstLinkOnly(pre, fields, cfg)
    ensures FieldStep(FieldsRun(pre, fields, false, cfg), fields, a, cfg) == FirstLinkOnly(pre + [a], fields, cfg)
  {
    var cs := pre + [a];
    var st := FieldsRun(pre, fields, false, cfg);
    FirstEeSnoc(pre, a, fields);
    FieldStepAppends(st, fields, a, cfg);
    var x, y, t := PlainFieldLines(pre[..k], fields, cfg), PlainFieldLines(pre[k + 1..], fields, cfg), PlainTail(a, fields, cfg);
    var d := [DoiEeLine(pre[k].text)];
    assert st.chunks == x + d + y && st.eeDone;
    SliceSnoc(pre, a, k + 1);
    SliceSnoc(pre, a, k);
    PlainFieldLinesSnoc(pre[k + 1..], a, fields, cfg);
    assert FirstEe(cs, fields) == k && cs[k] == pre[k];
    assert FirstLinkOnly(cs, fields, cfg) == FieldsState(PlainFieldLines(cs[..k], fields, cfg) + d + PlainFieldLines(cs[k + 1..], fields, cfg), true);
    AppendAssoc(x + d, y, t);
  }

  /** No line of the reference is a field line for a name that is not listed as verbatim or title. */
  lemma {:induction false} PlainFieldLinesCount(cs: seq<Child>, fields: map<string, FieldMode>, cfg: Config, name: string)
    requires forall n :: n in fields ==> ' ' !in n
    requires ' ' !in name && (name in fields ==> fields[name] == Ee)
    ensures CountNamed(PlainFieldLines(cs, fields, cfg), name) == 0
  {
    if |cs| > 0 {
      var a := cs[0];
      var head := PlainTail(a, fields, cfg);
      PlainFieldLinesCount(cs[1..], fields, cfg, name);
      CountNamedAppend(head, PlainFieldLines(cs[1..], fields, cfg), name);
      if head != [] {
        CountNamedOne(head[0], a.tag, name);
        assert head == [head[0]];
      }
    }
  }

  // ------------------------------------------------------------------ booktitle

  /** `year.text[2:]`: the year without its century. */
  function Year(text: string): (y: string)
    ensures |text| >= 2 ==> y == text[2..]
    ensures |text| < 2 ==> y == ""
  {
    PySlice(text, 2, |text|)
  }

  /** The booktitle is looked up in `NOACKCONFERENCE`: it has a space past its first character, or is one of two one-word names. */
  predicate LooksUp(name: string) {
    Find(name, " ") > 0 || name == "3PGCIC" || name == "INFLOW@SOSP"
  }

  /** The booktitle after the lookup: the mapped name if there is one, the original otherwise. */
  function Venue(name: string, venues: map<string, string>): string
  {
    if LooksUp(name) && name in venues then venues[name] else name
  }

  /** The booktitle line written in quotes. */
  function QuotedBooktitle(b: string): string
  {
    FieldAssign("booktitle", "\"" + b + "\"", ",\n")
  }

  /** The booktitle line written as a bare string macro name with the year appended. */
  function BareBooktitle(b: string, year: string): string
  {
    FieldAssign("booktitle", b + year, ",\n")
  }

  /** The booktitle line for the name DBLP gives and the year. */
  function BooktitleLine(name: string, year: string, venues: map<string, string>): string
  {
    if LooksUp(name) then
      if name in venues then
        var b := venues[name];
        if Find(b, " ") > 0 then QuotedBooktitle(b) else BareBooktitle(b, year)
      else
        QuotedBooktitle(name)
    else
      BareBooktitle(name, year)
  }

  /** The booktitle is quoted when it is looked up and is unknown or maps to a name with a space. */
  predicate Quoted(name: string, venues: map<string, string>) {
    LooksUp(name) && (name !in venues || Find(venues[name], " ") > 0)
  }

  /**
   * The booktitle line always names the venue after the lookup. It is quoted
   * when the name is looked up and unknown, or maps to a name with a space;
   * otherwise it is the bare venue with the year appended.
   */
  lemma BooktitleShape(name: string, year: string, venues: map<string, string>)
    ensures Quoted(name, venues) ==> BooktitleLine(name, year, venues) == QuotedBooktitle(Venue(name, venues))
    ensures !Quoted(name, venues) ==> BooktitleLine(name, year, venues) == BareBooktitle(Venue(name, venues), year)
    ensures Names(BooktitleLine(name, year, venues), "booktitle")
    ensures LooksUp(name) && name !in venues ==> BooktitleLine(name, year, venues) == QuotedBooktitle(name)
    ensures !LooksUp(name) ==> BooktitleLine(name, year, venues) == BareBooktitle(name, year)
  {
    FieldAssignNames("booktitle", "\"" + Venue(name, venues) + "\"", ",\n");
    FieldAssignNames("booktitle", Venue(name, venues) + year, ",\n");
  }

  /** Different bare names give different booktitle lines for the same year. */
  lemma BareBooktitleInjective(a: string, b: string, year: string)
    ensures BareBooktitle(a, year) == BareBooktitle(b, year) <==> a == b
  {
    var p := FieldPrefix("booktitle") + " ";
    if BareBooktitle(a, year) == BareBooktitle(b, year) {
      assert BareBooktitle(a, year) == p + a + (year + ",\n");
      assert BareBooktitle(b, year) == p + b + (year + ",\n");
      assert |a| == |b|;
      assert a == BareBooktitle(a, year)[|p|..|p| + |a|];
      assert b == BareBooktitle(b, year)[|p|..|p| + |b|];
    }
  }

  /** `USENIX Security Symposium` in 2019 is written as `USS19`. */
  lemma UsenixSecurityExample(name: string, year: string)
    requires name == "USENIX Security Symposium" && year == "2019"
    ensures BooktitleLine(name, Year(year), NoAckConference) == BareBooktitle("USS", "19")
  {
    UsenixSecurityLooksUp(name);
    UsenixSecurityMapped(name);
    FindNoSpace("USS");
    YearOf(year);
    BareVenueLine(name, "USS", "19", NoAckConference);
  }

  lemma YearOf(year: string)
    requires year == "2019"
    ensures Year(year) == "19"
  {
    assert year[2..] == "19";
  }

  /** A looked-up name mapped to a one-word macro gives the bare line with the year appended. */
  lemma BareVenueLine(name: string, b: string, year: string, venues: map<string, string>)
    requires LooksUp(name) && name in venues && venues[name] == b && Find(b, " ") == -1
    ensures BooktitleLine(name, year, venues) == BareBooktitle(b, year)
  {
  }

  lemma UsenixSecurityLooksUp(name: string)
    requires name == "USENIX Security Symposium"
    ensures LooksUp(name)
  {
    assert name == "USENIX" + " " + "Security Symposium";
    FirstSpaceAfterWord("USENIX", "Security Symposium");
  }

  /** A word without spaces followed by a space: the first space is right after the word. */
  lemma FirstSpaceAfterWord(w: string, rest: string)
    requires ' ' !in w
    ensures Find(w + " " + rest, " ") == |w|
  {
    var s := w + " " + rest;
    assert [' '] == " ";
    FindChar(s, ' ');
    assert s[|w|] == ' ';
    assert s[..|w|] == w;
  }

  lemma UsenixSecurityMapped(name: string)
    requires name == "USENIX Security Symposium"
    ensures name in NoAckConference && NoAckConference[name] == "USS"
  {
  }

  lemma FindNoSpace(b: string)
    requires ' ' !in b
    ensures Find(b, " ") == -1
  {
    FindChar(b, ' ');
    assert [' '] == " ";
  }

  /** The keyword line of workshop papers. */
  const KeywordsLine: string := BracedField("keywords", "workshop")

  /** The note on an entry whose key the document cites through an alias. */
  function BibsourceLine(c: string): string
  {
    FieldAssign("bibsource", "{DBLP alias: " + c + "}", "\n")
  }

  /** The last chunk of every entry. */
  const CloseLine: string := "}\n"

  /** The booktitle and, for workshop venues and every `incollection`, the keyword line. */
  function VenueLines(tag: string, name: string, year: string, venues: map<string, string>): seq<string>
  {
    [BooktitleLine(name, year, venues)] + (if Venue(name, venues) in Workshops || tag == "incollection" then [KeywordsLine] else [])
  }

  // ------------------------------------------------------------------ one entry

  /** The first child with the tag, as ElementTree's `find` returns it. */
  function FindChild(cs: seq<Child>, tag: string): (r: Option<Child>)
    ensures r.None? <==> forall i :: 0 <= i < |cs| ==> cs[i].tag != tag
    ensures r.Some? ==> exists i :: 0 <= i < |cs| && cs[i] == r.value && r.value.tag == tag
                                   && forall j :: 0 <= j < i ==> cs[j].tag != tag
  {
    if |cs| == 0 then None
    else if cs[0].tag == tag then Some(cs[0])
    else
      assert forall i :: 1 <= i < |cs| ==> cs[i] == cs[1..][i - 1];
      var r := FindChild(cs[1..], tag);
      if r.Some? then
        var i :| 0 <= i < |cs[1..]| && cs[1..][i] == r.value && r.value.tag == tag
                 && forall j :: 0 <= j < i ==> cs[1..][j].tag != tag;
        assert cs[i + 1] == r.value;
        r
      else r
  }

  predicate IsProceedings(tag: string) {
    tag == "inproceedings" || tag == "incollection"
  }

  /** The chunks up to and including the listed children. */
  function Front(texKey: string, r: Record, cfg: Config): seq<string>
  {
    [HeaderLine(r.tag, texKey), AuthorLine(r.children, cfg.table)]
    + FieldsRun(r.children, FieldList(r.tag), cfg.style == AbbrvNat, cfg).chunks
  }

  /** The chunks after the booktitle: the alias note if the document cites an alias, then the closing brace. */
  function Trailer(c: string, texKey: string): seq<string>
  {
    (if c != texKey then [BibsourceLine(c)] else []) + [CloseLine]
  }

  /** What the loop body writes for citation `c`, whose document key is `texKey`, and its record `r`. */
  function RecordOutput(c: string, texKey: string, r: Record, cfg: Config): Emitted
  {
    if !IsEntryTag(r.tag) then Emitted([], Some(UnknownTag(r.tag)))
    else if !IsProceedings(r.tag) then Emitted(Front(texKey, r, cfg) + Trailer(c, texKey), None)
    else
      match FindChild(r.children, "year")
      case None => Emitted(Front(texKey, r, cfg), Some(MissingYear(c)))
      case Some(y) =>
        match FindChild(r.children, "booktitle")
        case None => Emitted(Front(texKey, r, cfg), Some(MissingBooktitle(c)))
        case Some(b) => Emitted(Front(texKey, r, cfg) + VenueLines(r.tag, b.text, Year(y.text), cfg.venues) + Trailer(c, texKey), None)
  }

  /** The script stops exactly on an unknown tag or a conference paper without year or booktitle. */
  lemma RecordFaults(c: string, texKey: string, r: Record, cfg: Config)
    ensures var e := RecordOutput(c, texKey, r, cfg);
      && (e.fault == Some(UnknownTag(r.tag)) <==> !IsEntryTag(r.tag))
      && (e.fault == Some(MissingYear(c)) <==> IsEntryTag(r.tag) && IsProceedings(r.tag) && FindChild(r.children, "year").None?)
      && (e.fault == Some(MissingBooktitle(c)) <==>
            IsEntryTag(r.tag) && IsProceedings(r.tag) && FindChild(r.children, "year").Some? && FindChild(r.children, "booktitle").None?)
      && (e.fault.None? <==> IsEntryTag(r.tag) && (IsProceedings(r.tag) ==> FindChild(r.children, "year").Some? && FindChild(r.children, "booktitle").Some?))
      && (!IsEntryTag(r.tag) ==> e.chunks == [])
  {
  }

  /** A completed entry starts with its header and author line and ends with the closing brace. */
  lemma RecordFrame(c: string, texKey: string, r: Record, cfg: Config)
    requires RecordOutput(c, texKey, r, cfg).fault.None?
    ensures var cs := RecordOutput(c, texKey, r, cfg).chunks;
      |cs| >= 3 && cs[0] == HeaderLine(r.tag, texKey) && cs[1] == AuthorLine(r.children, cfg.table) && cs[|cs| - 1] == CloseLine
  {
    RecordParts(c, texKey, r, cfg);
    var f, v, t := Front(texKey, r, cfg), RecordVenue(r, cfg.venues), Trailer(c, texKey);
    var cs := f + v + t;
    assert cs[0] == f[0] && cs[1] == f[1];
    assert cs[|cs| - 1] == t[|t| - 1] == CloseLine;
  }

  /** The venue gets the workshop keyword: every `incollection`, and papers at a workshop venue. */
  predicate MarkedWorkshop(r: Record, venues: map<string, string>) {
    && IsProceedings(r.tag)
    && (r.tag == "incollection"
        || (FindChild(r.children, "booktitle").Some? && Venue(FindChild(r.children, "booktitle").value.text, venues) in Workshops))
  }

  /** The header and the author line name no field but `author`. */
  lemma {:induction false} FrontCount(texKey: string, r: Record, cfg: Config, name: string)
    requires ' ' !in name && name != "author"
    ensures CountNamed(Front(texKey, r, cfg), name)
         == CountNamed(FieldsRun(r.children, FieldList(r.tag), cfg.style == AbbrvNat, cfg).chunks, name)
  {
    var cs := r.children;
    var h, au := HeaderLine(r.tag, texKey), AuthorLine(cs, cfg.table);
    CountNamedAppend([h, au], FieldsRun(cs, FieldList(r.tag), cfg.style == AbbrvNat, cfg).chunks, name);
    CountNamedAppend([h], [au], name);
    assert [h, au] == [h] + [au];
    CountNamedNone(h, name);
    FieldAssignNames("author", "{" + Join(AuthorNames(cs, cfg.table), " and ") + "}", ",\n");
    CountNamedOne(au, "author", name);
  }

  /** The listed names of an entry type hold no space, leave out the names the script writes itself, and only `ee` is a link. */
  lemma FieldListPlain(tag: string)
    ensures forall n :: n in FieldList(tag) ==> ' ' !in n
    ensures "keywords" !in FieldList(tag) && "bibsource" !in FieldList(tag) && "doi" !in FieldList(tag)
    ensures "ee" in FieldList(tag) ==> FieldList(tag)["ee"] == Ee
  {
    forall n | n in FieldList(tag) ensures ' ' !in n {
      FieldListNames(tag, n);
    }
    if "keywords" in FieldList(tag) { FieldListNames(tag, "keywords"); }
    if "bibsource" in FieldList(tag) { FieldListNames(tag, "bibsource"); }
    if "doi" in FieldList(tag) { FieldListNames(tag, "doi"); }
    if "ee" in FieldList(tag) { FieldListNames(tag, "ee"); }
  }

  /** Neither the reference lines nor a link line name a field that is not a link and not listed. */
  lemma {:induction false} FieldsCount(cs: seq<Child>, fields: map<string, FieldMode>, eeDone: bool, cfg: Config, name: string)
    requires forall n :: n in fields ==> ' ' !in n
    requires ' ' !in name && name !in fields && name != "ee" && name != "doi"
    ensures CountNamed(FieldsRun(cs, fields, eeDone, cfg).chunks, name) == 0
  {
    PlainFieldLinesCount(cs, fields, cfg, name);
    if eeDone {
      FieldsAfterEe(cs, fields, cfg);
    } else {
      FieldsBeforeEe(cs, fields, cfg);
      var k := FirstEe(cs, fields);
      if k >= 0 {
        var p, q := PlainFieldLines(cs[..k], fields, cfg), PlainFieldLines(cs[k + 1..], fields, cfg);
        PlainFieldLinesCount(cs[..k], fields, cfg, name);
        PlainFieldLinesCount(cs[k + 1..], fields, cfg, name);
        CountNamedAppend(p + [DoiEeLine(cs[k].text)], q, name);
        CountNamedAppend(p, [DoiEeLine(cs[k].text)], name);
        DoiEeLineNames(cs[k].text, name);
      }
    }
  }

  /** The link line names `ee` for a plain link and `doi` for a resolver's one, and nothing else. */
  lemma DoiEeLineNames(url: string, name: string)
    requires ' ' !in name
    ensures !FromResolver(url) ==> CountNamed([DoiEeLine(url)], name) == if name == "ee" then 1 else 0
    ensures FromResolver(url) ==> CountNamed([DoiEeLine(url)], name) == if name == "doi" then 1 else 0
  {
    RemovePrefixesChanges(url, DoiInDblp);
    if RemovePrefixes(url, DoiInDblp) == url {
      EeLineNames(url, name);
    } else {
      DoiLineNames(url, name);
    }
  }

  lemma EeLineNames(url: string, name: string)
    requires ' ' !in name && RemovePrefixes(url, DoiInDblp) == url
    ensures CountNamed([DoiEeLine(url)], name) == if name == "ee" then 1 else 0
  {
    var e := EscapePercent(url);
    EeLineIs(url, e);
    EeNames(e, name);
  }

  lemma EeNames(value: string, name: string)
    requires ' ' !in name
    ensures CountNamed([BracedField("ee", value)], name) == if name == "ee" then 1 else 0
  {
    LinkLineNames("ee", value, name);
  }

  /** A braced line names its own field and no other. */
  lemma LinkLineNames(field: string, value: string, name: string)
    requires ' ' !in name && ' ' !in field
    ensures CountNamed([BracedField(field, value)], name) == if name == field then 1 else 0
  {
    FieldAssignNames(field, "{" + value + "}", ",\n");
    CountNamedOne(BracedField(field, value), field, name);
  }

  lemma DoiLineNames(url: string, name: string)
    requires ' ' !in name && RemovePrefixes(url, DoiInDblp) != url
    ensures CountNamed([DoiEeLine(url)], name) == if name == "doi" then 1 else 0
  {
    var v := "{" + RemovePrefixes(url, DoiInDblp) + "}";
    assert DoiEeLine(url) == FieldAssign("doi", v, ",\n");
    FieldAssignNames("doi", v, ",\n");
    CountNamedOne(DoiEeLine(url), "doi", name);
  }

  /** The booktitle and keyword lines name no field but their own. */
  lemma VenueCount(tag: string, name: string, year: string, venues: map<string, string>, field: string)
    requires ' ' !in field && field != "booktitle" && field != "keywords"
    ensures CountNamed(VenueLines(tag, name, year, venues), field) == 0
  {
    BooktitleShape(name, year, venues);
    CountNamedOne(BooktitleLine(name, year, venues), "booktitle", field);
    FieldAssignNames("keywords", "{" + "workshop" + "}", ",\n");
    CountNamedOne(KeywordsLine, "keywords", field);
    var kw := if Venue(name, venues) in Workshops || tag == "incollection" then [KeywordsLine] else [];
    CountNamedAppend([BooktitleLine(name, year, venues)], kw, field);
  }

  /** The alias note and the closing brace name no field but `bibsource`. */
  lemma TrailerCount(c: string, texKey: string, field: string)
    requires ' ' !in field && field != "bibsource"
    ensures CountNamed(Trailer(c, texKey), field) == 0
  {
    FieldAssignNames("bibsource", "{DBLP alias: " + c + "}", "\n");
    CountNamedOne(BibsourceLine(c), "bibsource", field);
    CountNamedNone(CloseLine, field);
    var bs := if c != texKey then [BibsourceLine(c)] else [];
    CountNamedAppend(bs, [CloseLine], field);
  }

  /** The keyword line appears once exactly when the venue is a workshop or the entry an `incollection`. */
  lemma VenueKeywords(tag: string, name: string, year: string, venues: map<string, string>)
    ensures CountNamed(VenueLines(tag, name, year, venues), "keywords") == if Venue(name, venues) in Workshops || tag == "incollection" then 1 else 0
  {
    BooktitleShape(name, year, venues);
    CountNamedOne(BooktitleLine(name, year, venues), "booktitle", "keywords");
    FieldAssignNames("keywords", "{" + "workshop" + "}", ",\n");
    CountNamedOne(KeywordsLine, "keywords", "keywords");
    var kw := if Venue(name, venues) in Workshops || tag == "incollection" then [KeywordsLine] else [];
    CountNamedAppend([BooktitleLine(name, year, venues)], kw, "keywords");
  }

  /** The alias note appears once exactly when the document cites the key through an alias. */
  lemma TrailerBibsource(c: string, texKey: string)
    ensures CountNamed(Trailer(c, texKey), "bibsource") == if c != texKey then 1 else 0
  {
    FieldAssignNames("bibsource", "{DBLP alias: " + c + "}", "\n");
    CountNamedOne(BibsourceLine(c), "bibsource", "bibsource");
    CountNamedNone(CloseLine, "bibsource");
    var bs := if c != texKey then [BibsourceLine(c)] else [];
    CountNamedAppend(bs, [CloseLine], "bibsource");
  }

  /** The booktitle and keyword lines a completed conference entry carries; none for other entries. */
  function RecordVenue(r: Record, venues: map<string, string>): seq<string>
  {
    var y, b := FindChild(r.children, "year"), FindChild(r.children, "booktitle");
    if IsProceedings(r.tag) && y.Some? && b.Some? then VenueLines(r.tag, b.value.text, Year(y.value.text), venues) else []
  }

  /** A completed entry is its front, its venue lines and its trailer; an entry that stops is its front alone. */
  lemma RecordParts(c: string, texKey: string, r: Record, cfg: Config)
    requires IsEntryTag(r.tag)
    ensures var e := RecordOutput(c, texKey, r, cfg);
      && (e.fault.None? ==> e.chunks == Front(texKey, r, cfg) + RecordVenue(r, cfg.venues) + Trailer(c, texKey))
      && (e.fault.Some? ==> e.chunks == Front(texKey, r, cfg))
  {
    if !IsProceedings(r.tag) {
      assert RecordVenue(r, cfg.venues) == [];
      assert Front(texKey, r, cfg) + [] == Front(texKey, r, cfg);
    }
  }

  /** Over a completed entry, a field name counts as often as in its three parts. */
  lemma {:induction false} RecordCount(c: string, texKey: string, r: Record, cfg: Config, name: string)
    requires ' ' !in name && name != "author"
    requires RecordOutput(c, texKey, r, cfg).fault.None?
    ensures CountNamed(RecordOutput(c, texKey, r, cfg).chunks, name)
         == CountNamed(FieldsRun(r.children, FieldList(r.tag), cfg.style == AbbrvNat, cfg).chunks, name)
          + CountNamed(RecordVenue(r, cfg.venues), name) + CountNamed(Trailer(c, texKey), name)
  {
    var f, v, t := Front(texKey, r, cfg), RecordVenue(r, cfg.venues), Trailer(c, texKey);
    RecordParts(c, texKey, r, cfg);
    FrontCount(texKey, r, cfg, name);
    CountNamedAppend(f + v, t, name);
    CountNamedAppend(f, v, name);
  }

  /** An entry that stops after its front holds the names its listed children wrote. */
  lemma {:induction false} FaultCount(c: string, texKey: string, r: Record, cfg: Config, name: string)
    requires ' ' !in name && name != "author"
    requires IsEntryTag(r.tag) && RecordOutput(c, texKey, r, cfg).fault.Some?
    ensures CountNamed(RecordOutput(c, texKey, r, cfg).chunks, name)
         == CountNamed(FieldsRun(r.children, FieldList(r.tag), cfg.style == AbbrvNat, cfg).chunks, name)
  {
    RecordParts(c, texKey, r, cfg);
    FrontCount(texKey, r, cfg, name);
  }

  /** The venue lines of a record, counted. */
  lemma RecordVenueCount(r: Record, venues: map<string, string>, field: string)
    requires ' ' !in field
    ensures field != "booktitle" && field != "keywords" ==> CountNamed(RecordVenue(r, venues), field) == 0
    ensures CountNamed(RecordVenue(r, venues), "keywords")
         == if MarkedWorkshop(r, venues) && FindChild(r.children, "year").Some? && FindChild(r.children, "booktitle").Some? then 1 else 0
  {
    var y, b := FindChild(r.children, "year"), FindChild(r.children, "booktitle");
    if IsProceedings(r.tag) && y.Some? && b.Some? {
      if field != "booktitle" && field != "keywords" {
        VenueCount(r.tag, b.value.text, Year(y.value.text), venues, field);
      }
      VenueKeywords(r.tag, b.value.text, Year(y.value.text), venues);
    }
  }

  /**
   * A completed entry carries `keywords = {workshop}` once when it is an
   * `incollection` or a paper at a venue in `WORKSHOPS`, and not otherwise.
   */
  lemma RecordKeywords(c: string, texKey: string, r: Record, cfg: Config)
    requires RecordOutput(c, texKey, r, cfg).fault.None?
    ensures CountNamed(RecordOutput(c, texKey, r, cfg).chunks, "keywords") == if MarkedWorkshop(r, cfg.venues) then 1 else 0
  {
    var fields := FieldsRun(r.children, FieldList(r.tag), cfg.style == AbbrvNat, cfg).chunks;
    FieldNames();
    RecordCount(c, texKey, r, cfg, "keywords");
    assert CountNamed(fields, "keywords") == 0 by {
      FieldListPlain(r.tag);
      FieldsCount(r.children, FieldList(r.tag), cfg.style == AbbrvNat, cfg, "keywords");
    }
    assert CountNamed(Trailer(c, texKey), "keywords") == 0 by { TrailerCount(c, texKey, "keywords"); }
    assert IsProceedings(r.tag) ==> FindChild(r.children, "year").Some? && FindChild(r.children, "booktitle").Some? by {
      RecordFaults(c, texKey, r, cfg);
    }
    RecordVenueCount(r, cfg.venues, "keywords");
  }

  /** The field names the counting lemmas are applied to: single words, all different. */
  lemma FieldNames()
    ensures ' ' !in "keywords" && ' ' !in "bibsource" && ' ' !in "ee" && ' ' !in "doi"
    ensures "keywords" != "author" && "keywords" != "bibsource" && "keywords" != "ee" && "keywords" != "doi"
    ensures "bibsource" != "author" && "bibsource" != "ee" && "bibsource" != "doi" && "bibsource" != "booktitle"
    ensures "ee" != "author" && "ee" != "bibsource" && "ee" != "booktitle" && "ee" != "keywords"
    ensures "doi" != "author" && "doi" != "bibsource" && "doi" != "booktitle" && "doi" != "keywords"
  {
  }

  /** A completed entry carries the alias note once, just before the closing brace, exactly when `c` differs from its document key. */
  lemma RecordBibsource(c: string, texKey: string, r: Record, cfg: Config)
    requires RecordOutput(c, texKey, r, cfg).fault.None?
    ensures CountNamed(RecordOutput(c, texKey, r, cfg).chunks, "bibsource") == if c != texKey then 1 else 0
    ensures var cs := RecordOutput(c, texKey, r, cfg).chunks;
      c != texKey ==> |cs| >= 4 && cs[|cs| - 2] == BibsourceLine(c)
  {
    FieldNames();
    RecordCount(c, texKey, r, cfg, "bibsource");
    FieldListPlain(r.tag);
    FieldsCount(r.children, FieldList(r.tag), cfg.style == AbbrvNat, cfg, "bibsource");
    TrailerBibsource(c, texKey);
    RecordVenueCount(r, cfg.venues, "bibsource");
    RecordParts(c, texKey, r, cfg);
  }

  /** The listed children write one `ee` or `doi` line if a link child exists and the flag starts clear, else none. */
  lemma {:induction false} FieldsLinks(cs: seq<Child>, fields: map<string, FieldMode>, eeDone: bool, cfg: Config)
    requires forall n :: n in fields ==> ' ' !in n
    requires "doi" !in fields && ("ee" in fields ==> fields["ee"] == Ee)
    ensures CountNamed(FieldsRun(cs, fields, eeDone, cfg).chunks, "ee") + CountNamed(FieldsRun(cs, fields, eeDone, cfg).chunks, "doi")
         == if eeDone || FirstEe(cs, fields) < 0 then 0 else 1
  {
    PlainFieldLinesCount(cs, fields, cfg, "ee");
    PlainFieldLinesCount(cs, fields, cfg, "doi");
    if eeDone {
      FieldsAfterEe(cs, fields, cfg);
    } else {
      FieldsBeforeEe(cs, fields, cfg);
      var k := FirstEe(cs, fields);
      if k >= 0 {
        var p, d, q := PlainFieldLines(cs[..k], fields, cfg), [DoiEeLine(cs[k].text)], PlainFieldLines(cs[k + 1..], fields, cfg);
        PlainFieldLinesCount(cs[..k], fields, cfg, "ee");
        PlainFieldLinesCount(cs[k + 1..], fields, cfg, "ee");
        PlainFieldLinesCount(cs[..k], fields, cfg, "doi");
        PlainFieldLinesCount(cs[k + 1..], fields, cfg, "doi");
        CountNamedAppend(p + d, q, "ee");
        CountNamedAppend(p, d, "ee");
        CountNamedAppend(p + d, q, "doi");
        CountNamedAppend(p, d, "doi");
        DoiEeLineNames(cs[k].text, "ee");
        DoiEeLineNames(cs[k].text, "doi");
      }
    }
  }

  /**
   * An entry holds at most one `ee`/`doi` line: none under the `abbrvnat`
   * style or without a link child, and otherwise one, for the first link child.
   */
  lemma RecordLinks(c: string, texKey: string, r: Record, cfg: Config)
    ensures var cs := RecordOutput(c, texKey, r, cfg).chunks;
      CountNamed(cs, "ee") + CountNamed(cs, "doi")
      == if cfg.style == AbbrvNat || FirstEe(r.children, FieldList(r.tag)) < 0 then 0 else 1
  {
    if IsEntryTag(r.tag) {
      FieldNames();
      FieldListPlain(r.tag);
      FieldsLinks(r.children, FieldList(r.tag), cfg.style == AbbrvNat, cfg);
      if RecordOutput(c, texKey, r, cfg).fault.None? {
        RecordCount(c, texKey, r, cfg, "ee");
        RecordCount(c, texKey, r, cfg, "doi");
        RecordVenueCount(r, cfg.venues, "ee");
        RecordVenueCount(r, cfg.venues, "doi");
        TrailerCount(c, texKey, "ee");
        TrailerCount(c, texKey, "doi");
      } else {
        FaultCount(c, texKey, r, cfg, "ee");
        FaultCount(c, texKey, r, cfg, "doi");
      }
    } else {
      assert FieldList(r.tag) == map[];
    }
  }

  // ------------------------------------------------------------------ the whole file

  /** One turn of the loop over the resolved citations: nothing once the script has stopped or for an uncached key. */
  function BibStep(st: Emitted, c: string, articles: map<string, Record>, rev: map<string, string>, cfg: Config): Emitted
  {
    if st.fault.Some? || c !in articles then st
    else
      var e := RecordOutput(c, FindRevAlias(c, rev), articles[c], cfg);
      Emitted(st.chunks + e.chunks, e.fault)
  }

  /** `dblp.bib` after the file header and the loop over the resolved citations `cites`. */
  function BibRun(cites: seq<string>, articles: map<string, Record>, rev: map<string, string>, cfg: Config): Emitted
  {
    if |cites| == 0 then Emitted(FileHeader, None)
    else BibStep(BibRun(cites[..|cites| - 1], articles, rev, cfg), cites[|cites| - 1], articles, rev, cfg)
  }

  lemma {:induction false} BibRunSnoc(cites: seq<string>, i: nat, articles: map<string, Record>, rev: map<string, string>, cfg: Config)
    requires i < |cites|
    ensures BibRun(cites[..i + 1], articles, rev, cfg) == BibStep(BibRun(cites[..i], articles, rev, cfg), cites[i], articles, rev, cfg)
  {
    assert cites[..i + 1][..i] == cites[..i];
  }

  /** The file always begins with the two comment lines of the header. */
  lemma {:induction false} BibRunHeader(cites: seq<string>, articles: map<string, Record>, rev: map<string, string>, cfg: Config)
    ensures |BibRun(cites, articles, rev, cfg).chunks| >= 2
    ensures BibRun(cites, articles, rev, cfg).chunks[..2] == FileHeader
  {
    if |cites| > 0 {
      var pre := BibRun(cites[..|cites| - 1], articles, rev, cfg);
      BibRunHeader(cites[..|cites| - 1], articles, rev, cfg);
      var c := cites[|cites| - 1];
      if pre.fault.None? && c in articles {
        var e := RecordOutput(c, FindRevAlias(c, rev), articles[c], cfg);
        assert (pre.chunks + e.chunks)[..2] == pre.chunks[..2];
      }
    }
  }

  /** A citation the cache does not hold adds nothing to the file. */
  lemma BibRunSkipsUncached(cites: seq<string>, c: string, articles: map<string, Record>, rev: map<string, string>, cfg: Config)
    requires c !in articles
    ensures BibRun(cites + [c], articles, rev, cfg) == BibRun(cites, articles, rev, cfg)
  {
    assert (cites + [c])[..|cites|] == cites;
  }

  /** Once the script stops, later citations add nothing: the file keeps what was written up to the fault. */
  lemma {:induction false} BibRunStops(cites: seq<string>, more: seq<string>, articles: map<string, Record>, rev: map<string, string>, cfg: Config)
    requires BibRun(cites, articles, rev, cfg).fault.Some?
    ensures BibRun(cites + more, articles, rev, cfg) == BibRun(cites, articles, rev, cfg)
  {
    if |more| > 0 {
      var m := more[..|more| - 1];
      BibRunStops(cites, m, articles, rev, cfg);
      assert (cites + more)[..|cites + more| - 1] == cites + m;
    } else {
      assert cites + more == cites;
    }
  }

  /** The record of a cached citation is complete: the loop body runs to its closing brace. */
  ghost predicate Completes(c: string, articles: map<string, Record>, rev: map<string, string>, cfg: Config) {
    c in articles ==> RecordOutput(c, FindRevAlias(c, rev), articles[c], cfg).fault.None?
  }

  /** The file is written to the end exactly when every cached citation's record is complete. */
  lemma {:induction false} BibRunCompletes(cites: seq<string>, articles: map<string, Record>, rev: map<string, string>, cfg: Config)
    ensures BibRun(cites, articles, rev, cfg).fault.None?
        <==> forall i :: 0 <= i < |cites| ==> Completes(cites[i], articles, rev, cfg)
  {
    if |cites| > 0 {
      var pre, c := cites[..|cites| - 1], cites[|cites| - 1];
      BibRunCompletes(pre, articles, rev, cfg);
      assert BibRun(cites, articles, rev, cfg).fault.None?
         <==> BibRun(pre, articles, rev, cfg).fault.None? && Completes(c, articles, rev, cfg);
      if BibRun(cites, articles, rev, cfg).fault.None? {
        forall i | 0 <= i < |cites| ensures Completes(cites[i], articles, rev, cfg) {
          if i < |pre| {
            assert cites[i] == pre[i];
          } else {
            assert cites[i] == c;
          }
        }
      } else if BibRun(pre, articles, rev, cfg).fault.Some? {
        var i :| 0 <= i < |pre| && !Completes(pre[i], articles, rev, cfg);
        assert cites[i] == pre[i];
      } else {
        assert !Completes(cites[|cites| - 1], articles, rev, cfg);
      }
    }
  }

  /** Over a cache indexed by entry records, the script never stops on an unknown tag. */
  lemma {:induction false} BibRunKnownTags(cites: seq<string>, articles: map<string, Record>, rev: map<string, string>, cfg: Config)
    requires WellKeyed(articles)
    ensures !(BibRun(cites, articles, rev, cfg).fault.Some? && BibRun(cites, articles, rev, cfg).fault.value.UnknownTag?)
  {
    if |cites| > 0 {
      var pre := cites[..|cites| - 1];
      BibRunKnownTags(pre, articles, rev, cfg);
      var c := cites[|cites| - 1];
      if BibRun(pre, articles, rev, cfg).fault.None? && c in articles {
        RecordFaults(c, FindRevAlias(c, rev), articles[c], cfg);
      }
    }
  }

  /**
   * The document key of an entry is the alias the document cites when there
   * is one, and the alias note names the DBLP key exactly then.
   */
  lemma AliasNote(c: string, rev: map<string, string>, r: Record, cfg: Config)
    requires RecordOutput(c, FindRevAlias(c, rev), r, cfg).fault.None?
    ensures var cs := RecordOutput(c, FindRevAlias(c, rev), r, cfg).chunks;
      && cs[0] == HeaderLine(r.tag, if c in rev then rev[c] else c)
      && CountNamed(cs, "bibsource") == if c in rev && rev[c] != c then 1 else 0
  {
    RecordFrame(c, FindRevAlias(c, rev), r, cfg);
    RecordBibsource(c, FindRevAlias(c, rev), r, cfg);
  }

  /** Writing the header, the author line and the listed children appends the front. */
  lemma FrontAppended(w: seq<string>, texKey: string, r: Record, cfg: Config)
    ensures w + [HeaderLine(r.tag, texKey)] + [AuthorLine(r.children, cfg.table)]
              + FieldsRun(r.children, FieldList(r.tag), cfg.style == AbbrvNat, cfg).chunks
         == w + Front(texKey, r, cfg)
  {
  }

  /** A conference entry without year or booktitle stops after its front. */
  lemma RecordStops(c: string, texKey: string, r: Record, cfg: Config)
    requires IsProceedings(r.tag)
    ensures FindChild(r.children, "year").None? ==>
              RecordOutput(c, texKey, r, cfg) == Emitted(Front(texKey, r, cfg), Some(MissingYear(c)))
    ensures FindChild(r.children, "year").Some? && FindChild(r.children, "booktitle").None? ==>
              RecordOutput(c, texKey, r, cfg) == Emitted(Front(texKey, r, cfg), Some(MissingBooktitle(c)))
  {
  }

  /** An entry that reaches its closing brace is its front, its venue lines and its trailer. */
  lemma RecordCompletes(w: seq<string>, c: string, texKey: string, r: Record, cfg: Config)
    requires IsEntryTag(r.tag)
    requires IsProceedings(r.tag) ==> FindChild(r.children, "year").Some? && FindChild(r.children, "booktitle").Some?
    ensures RecordOutput(c, texKey, r, cfg).fault == None
    ensures w + Front(texKey, r, cfg) + RecordVenue(r, cfg.venues) + Trailer(c, texKey) == w + RecordOutput(c, texKey, r, cfg).chunks
  {
    RecordParts(c, texKey, r, cfg);
    var f, v, t := Front(texKey, r, cfg), RecordVenue(r, cfg.venues), Trailer(c, texKey);
    AppendAssoc(w + f, v, t);
    AppendAssoc(w, f, v + t);
    AppendAssoc(f, v, t);
  }

  /** Writing the optional alias note and then the closing brace appends the trailer. */
  lemma TrailerWritten(venue: seq<string>, noted: seq<string>, written: seq<string>, c: string, texKey: string)
    requires noted == venue + (if c != texKey then [BibsourceLine(c)] else [])
    requires written == noted + [CloseLine]
    ensures written == venue + Trailer(c, texKey)
  {
    AppendAssoc(venue, if c != texKey then [BibsourceLine(c)] else [], [CloseLine]);
  }

  /** The open `dblp.bib` file, as the sequence of strings written to it. */
  class BibFile {
    var written: seq<string>

    /** `open("dblp.bib","w")`: the file starts empty. */
    constructor Open()
      ensures written == []
    {
      written := [];
    }

    /** `F.write(chunk)`. */
    method Write(chunk: string)
      modifies this
      ensures written == old(written) + [chunk]
    {
      written := written + [chunk];
    }

    /** The loop over a record's children: listed children are written in order, and only the first link unless `processedEE` starts set. */
    method WriteFields(cs: seq<Child>, fields: map<string, FieldMode>, eeDone: bool, cfg: Config)
      modifies this
      ensures written == old(written) + FieldsRun(cs, fields, eeDone, cfg).chunks
    {
      ghost var w0 := written;
      var processedEE := eeDone;
      var i := 0;
      while i < |cs|
        invariant 0 <= i <= |cs|
        invariant written == w0 + FieldsRun(cs[..i], fields, eeDone, cfg).chunks
        invariant processedEE == FieldsRun(cs[..i], fields, eeDone, cfg).eeDone
      {
        var a := cs[i];
        FieldsRunSnoc(cs, i, fields, eeDone, cfg);
        ghost var st := FieldsRun(cs[..i], fields, eeDone, cfg).chunks;
        if a.tag in fields {
          match fields[a.tag]
          case Id =>
            var line := BracedField(a.tag, HtmlToBibtex(a.text, cfg.table));
            Write(line);
            AppendAssoc(w0, st, [line]);
          case Double =>
            var line;
            if a.tag == "title" && a.text in cfg.titleSub {
              line := BracedField(a.tag, "{" + EscapePercentAmp(cfg.titleSub[a.text]) + "}");
            } else {
              line := BracedField(a.tag, "{" + EscapePercentAmp(HtmlToBibtex(a.text, cfg.table)) + "}");
            }
            Write(line);
            AppendAssoc(w0, st, [line]);
          case Ee =>
            if !processedEE {
              var line := OutputDoiEe(a.text);
              Write(line);
              AppendAssoc(w0, st, [line]);
              processedEE := true;
            }
        }
        i := i + 1;
      }
      assert cs[..i] == cs;
    }

    /** The booktitle, mapped through `NOACKCONFERENCE` when it is looked up, then the workshop keyword. */
    method WriteVenue(tag: string, name: string, year: string, venues: map<string, string>)
      modifies this
      ensures written == old(written) + VenueLines(tag, name, year, venues)
    {
      ghost var w := written;
      var booktitle := name;
      if Find(booktitle, " ") > 0 || booktitle == "3PGCIC" || booktitle == "INFLOW@SOSP" {
        if booktitle in venues {
          booktitle := venues[booktitle];
          if Find(booktitle, " ") > 0 {
            Write(QuotedBooktitle(booktitle));
          } else {
            Write(BareBooktitle(booktitle, year));
          }
        } else {
          Write(QuotedBooktitle(booktitle));
        }
      } else {
        Write(BareBooktitle(booktitle, year));
      }
      assert booktitle == Venue(name, venues) && written == w + [BooktitleLine(name, year, venues)];
      if booktitle in Workshops || tag == "incollection" {
        Write(KeywordsLine);
        AppendAssoc(w, [BooktitleLine(name, year, venues)], [KeywordsLine]);
      } else {
        assert written == w + [BooktitleLine(name, year, venues)] + [];
      }
    }

    /** The loop body for citation `c` with document key `texKey` and cached record `r`. */
    method EmitRecord(c: string, texKey: string, r: Record, cfg: Config) returns (fault: Option<Fault>)
      modifies this
      ensures written == old(written) + RecordOutput(c, texKey, r, cfg).chunks
      ensures fault == RecordOutput(c, texKey, r, cfg).fault
    {
      if !(r.tag == "article" || r.tag == "inproceedings" || r.tag == "book" || r.tag == "incollection") {
        assert written == old(written) + [];
        return Some(UnknownTag(r.tag));
      }
      var fields := FieldList(r.tag);
      var processedEE := cfg.style == AbbrvNat;
      ghost var w := written;
      Write(HeaderLine(r.tag, texKey));
      Write(AuthorLine(r.children, cfg.table));
      WriteFields(r.children, fields, processedEE, cfg);
      ghost var front := written;
      FrontAppended(w, texKey, r, cfg);
      if r.tag == "inproceedings" || r.tag == "incollection" {
        var y := FindChild(r.children, "year");
        if y.None? {
          RecordStops(c, texKey, r, cfg);
          return Some(MissingYear(c));
        }
        var b := FindChild(r.children, "booktitle");
        if b.None? {
          RecordStops(c, texKey, r, cfg);
          return Some(MissingBooktitle(c));
        }
        WriteVenue(r.tag, b.value.text, Year(y.value.text), cfg.venues);
      } else {
        assert written == front + [];
      }
      ghost var venue := written;
      if c != texKey {
        Write(BibsourceLine(c));
      } else {
        assert written == venue + [];
      }
      ghost var noted := written;
      Write(CloseLine);
      TrailerWritten(venue, noted, written, c, texKey);
      RecordCompletes(w, c, texKey, r, cfg);
      fault := None;
    }

    /**
     * One turn of the loop over the resolved citations (bibcloud.py:444-446):
     * a cached citation's entry is written under the key `latex_backmap` gives back.
     */
    method EmitCitation(cites: seq<string>, i: nat, articles: map<string, Record>, rev: map<string, string>,
                        backmap: map<string, string>, cfg: Config)
      returns (fault: Option<Fault>)
      requires i < |cites| && backmap == Backmap(cites, rev)
      requires BibRun(cites[..i], articles, rev, cfg) == Emitted(written, None)
      modifies this
      ensures BibRun(cites[..i + 1], articles, rev, cfg) == Emitted(written, fault)
    {
      var c := cites[i];
      BibRunSnoc(cites, i, articles, rev, cfg);
      if c in articles {
        assert c in backmap && backmap[c] == FindRevAlias(c, rev) by { assert c in cites; }
        fault := EmitRecord(c, backmap[c], articles[c], cfg);
      } else {
        fault := None;
      }
    }
  }

  /**
   * Opens `dblp.bib`, writes the header and then the entry of every resolved
   * citation the cache holds, in citation order; it stops at the first fault,
   * leaving what was written so far.
   */
  method WriteDblpBib(cites: seq<string>, articles: map<string, Record>, rev: map<string, string>, cfg: Config)
    returns (file: BibFile, fault: Option<Fault>)
    ensures fresh(file)
    ensures file.written == BibRun(cites, articles, rev, cfg).chunks
    ensures fault == BibRun(cites, articles, rev, cfg).fault
  {
    var backmap := Backmap(cites, rev);
    file := new BibFile.Open();
    file.Write("%%% This file is automatically genreated by bibcloud.py\n");
    file.Write("%%% DO NOT EDIT\n\n\n");
    fault := None;
    var i := 0;
    while i < |cites|
      invariant 0 <= i <= |cites|
      invariant fresh(file)
      invariant BibRun(cites[..i], articles, rev, cfg) == Emitted(file.written, None)
    {
      var f := file.EmitCitation(cites, i, articles, rev, backmap, cfg);
      if f.Some? {
        BibRunStops(cites[..i + 1], cites[i + 1..], articles, rev, cfg);
        assert cites[..i + 1] + cites[i + 1..] == cites;
        return file, f;
      }
      i := i + 1;
    }
    assert cites[..i] == cites;
  }
}
