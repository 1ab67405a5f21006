# bibcloud in Dafny

bibcloud.py writes the `dblp.bib` file for a LaTeX document. It takes its
records from DBLP.

The script runs in these steps:

1. It reads the citation keys of the document's `.aux` file, and its
   `\bibstyle`.
2. It maps each key through the alias table of `dblp-alias.txt`.
3. It splits the resolved keys into foreign keys, cached DBLP keys and
   missing DBLP keys, and fetches the missing ones.
4. It writes one BibTeX entry per cached record.

Each entry has these parts:

- a header line;
- an author line;
- the record's listed children, converted and escaped for BibTeX, with at
  most one `ee`/`doi` link;
- a booktitle built from the venue table for conference papers;
- a workshop keyword;
- a note for keys that the document cites through an alias;
- the closing brace.

This project models that core and proves properties of it. It has seven
modules:

- `Results`: `Result` and `Option`.
- `Strings`: the Python 2 `str` operations the script uses, over
  `seq<char>`:
  - `find` and `find` with a start;
  - slices with Python's negative and clamped bounds;
  - `split(c)`, `split()`, `strip()`, `replace` and `join`;
  - `sorted(set(...))`, specified as a strictly increasing list with the
    same members.
- `Extraction`:
  - `find_citation` and `load_references`.
  - The `.aux` file is a sequence of lines.
  - The style is returned as a value rather than stored in `gBibStyle`.
  - A `\bibstyle` line without `{` is an error result, since the script
    raises `IndexError` there.
- `Overrides`:
  - `strip_comment` and `find_revalias`.
  - The two override-file loops, as methods of a class `Tables` with the
    fields `alias`, `revAlias` and `titleSub`. These are the globals
    `ALIAS`, `REVALIAS` and `TITLESUB`.
  - The loops are specified by functions over the file's lines.
  - Citation resolution, the both-forms check, and `latex_backmap`.
- `Cache`:
  - The loop that indexes the cache file's records under `DBLP:` + key, as
    a method of a class `DblpCache` with the field `articles` (the
    dictionary `DBLP_article`).
  - The `foreign`/`missing` partition of the resolved keys.
  - The key `c[5:]` that is fetched.
- `Escaping`:
  - `author_trim`;
  - `html_to_bibtex2`, a method with the script's character loop;
  - `html_to_bibtex`, `escape_percent`, `escape_percent_amp` and
    `output_doi_ee`.
- `Emission`:
  - The per-record loop body, as `BibFile.EmitRecord`.
  - The whole `dblp.bib` loop, as `WriteDblpBib`.
  - A `BibFile` object stands for the open file. Its field `written` is
    the sequence of chunks passed to `F.write`, in order.
  - Each method is proved against a function: `RecordOutput` for one
    entry, and `BibRun` for the whole file.
  - Lemmas about those functions state what the file contains.

In a few places the script does not do what its names and messages suggest.
The model follows the code:

- **`escape_percent_amp`.** It is modelled as written. When the text
  contains `\&`, everything up to and including the first `\&` is copied
  unchanged, even a `%` or `&` before it. Only the rest is escaped.
  - `EscapePercentAmpSkipsEarlyPercent` shows an unescaped `%` left in the
    output.
  - `EscapePercentAmpPlain` proves that, on text without `\&`, the function
    equals the reference that escapes every `%` and `&` (`EscapeBoth`).
  - It is not idempotent on `%`: `%` becomes `\%`, and a second pass gives
    `\\%`, because the `%` is escaped again after the backslash
    (`EscapePercentAmpNotIdempotent`). `EscapePercentAmpIdempotent` proves it
    idempotent on text without `%`.
- **Alias tables.** They are not kept inverse to each other: a later line
  overwrites an earlier one in either table.
  - `SharedKeyBreaksInverse` gives two lines that break the inverse.
  - `DistinctAliasesInverse` proves the tables are inverse when the file's
    aliases and DBLP keys are all distinct.
- **The both-forms check (bibcloud.py:418-420).** It reports the list.
  "FATAL" is printed, but the script does not stop.
- **Missing `year` or `booktitle`.** A conference paper without a `year` or
  `booktitle` child makes the script stop with an `AttributeError`, after
  the entry's header, author line and fields were written. The model
  returns this as a fault, and the file keeps the partial entry.
- **No `}` after the citation.** When no `}` follows the first `{`,
  `l.find("}", y)` is -1. The slice `l[y+1:-1]` then drops the last
  character of the line. `CitationText` states exactly that.

## Model

| member | source | states |
|---|---|---|
| Strings.Find | bibcloud.py:151 | `s.find(p)` is -1 exactly when `p` does not occur; otherwise it is the least index where `p` occurs |
| Strings.FindFrom | bibcloud.py:153 | `s.find(p, start)` is -1 when `p` does not occur at or after `start`; otherwise it is the least such index |
| Strings.FindIs | bibcloud.py:151 | an occurrence with no earlier occurrence is the value of `find` |
| Strings.FindChar | bibcloud.py:197 | finding a character gives -1 exactly when it is absent; otherwise the position of its first occurrence |
| Strings.FindFromChar | bibcloud.py:153 | finding a character from `start` gives its first occurrence in `s[start..]`, or -1 exactly when it is absent there |
| Strings.PySlice | bibcloud.py:155-161 | Python slicing: in-range bounds give the ordinary slice; end -1 drops the last character |
| Strings.Join | bibcloud.py:290 | `sep.join(parts)`, as at 290 and 466; defined by its body; specified by `Split`, `SplitGlue`, `SplitHead`, `JoinStart`, `JoinEmptyFirst` and `JoinSnoc` |
| Strings.Split | bibcloud.py:408 | `s.split(c)` has at least one part, no part holds `c`, and joining the parts with `c` gives back `s` |
| Strings.SplitCount | bibcloud.py:409 | `s.split(c)` has one part more than `s` has occurrences of `c` |
| Strings.SplitHead | bibcloud.py:180 | when `c` occurs, `s` is the first part, then `c`, then the remaining parts joined with `c` |
| Strings.Words | bibcloud.py:393 | `s.split()`; defined by its body; specified by `WordsSpec`, `WordsAreRuns` and `WordsAvoid` |
| Strings.WordsSpec | bibcloud.py:393 | `s.split()` gives non-empty words without whitespace whose concatenation is `s` without its whitespace |
| Strings.RunLength | bibcloud.py:393 | the length of the longest whitespace-free prefix: that prefix holds no whitespace and is followed by whitespace or the end |
| Strings.Runs | bibcloud.py:393 | the maximal whitespace-free runs from the left; defined by its body and used as the reference for `split()` |
| Strings.WordsAreRuns | bibcloud.py:393 | `s.split()` cuts exactly at whitespace: its words are the maximal whitespace-free runs of `s`, in order, so no two words could be joined |
| Strings.WordsAvoid | bibcloud.py:393 | a character absent from the text is absent from every word of `split()` |
| Strings.Strip | bibcloud.py:174 | `strip` removes a prefix and a suffix of dropped characters and leaves no dropped character at either end |
| Strings.Count | bibcloud.py:409 | the number of occurrences of a character is at most the length, and zero exactly when it is absent |
| Strings.Replace | bibcloud.py:316 | `s.replace(pat, rep)`, as at 316 and 361; defined by its body; specified by `ReplaceAbsent`, `RemoveShrinks`, `ReplaceCharLength`, `ReplaceAmpersandEscapes` and `EscapePercent` |
| Strings.ReplaceAbsent | bibcloud.py:361 | replacing a pattern that does not occur leaves the text unchanged |
| Strings.RemoveShrinks | bibcloud.py:361 | removing a pattern never lengthens the text, and shortens it when the pattern occurs |
| Strings.ReplaceCharLength | bibcloud.py:323 | replacing a character by two characters lengthens the text by the number of its occurrences |
| Strings.ReplaceAmpersandEscapes | bibcloud.py:316 | after every `&` is replaced by a text whose `&`s are escaped, every `&` of the result follows a backslash |
| Strings.BelowTotal | bibcloud.py:191 | the string order of `sorted` is total on distinct strings |
| Strings.BelowTransitive | bibcloud.py:191 | the string order is transitive |
| Strings.BelowAsymmetric | bibcloud.py:191 | the string order is asymmetric |
| Strings.Insert | bibcloud.py:191 | inserting into a strictly sorted list keeps it strictly sorted and adds exactly the new element |
| Strings.SortedSet | bibcloud.py:191 | `sorted(set(xs))` is strictly increasing and has exactly the members of `xs` |
| Strings.SortedUnique | bibcloud.py:191 | two strictly sorted lists with the same members are equal, so `sorted(set(...))` depends only on the set |
| Extraction.FindCitation | bibcloud.py:150-163 | defined by its body; specified by `FindCitationText`, `MarkedSlice` and `UnmarkedLineHasNoKeys` |
| Extraction.LineKeys | bibcloud.py:186-189 | defined by its body; specified by `CitationParts`, `Citations` and `UnmarkedLineHasNoKeys` |
| Extraction.FindCitationText | bibcloud.py:150-163 | a line without either marker gives `""`; a marked line gives the text after its first `{` up to the next `}` (or up to the last character when no `}` follows) |
| Extraction.MarkedSlice | bibcloud.py:151-161 | on a marked line the first `{` exists and both marker branches take the slice from it to the next `}` |
| Extraction.MarkerHasOpen | bibcloud.py:151-161 | a line holding either marker holds a `{` |
| Extraction.CitationParts | bibcloud.py:186-189 | the flattened key lists hold exactly the keys of some line |
| Extraction.StripLines | bibcloud.py:174 | one stripped line per line of the file, never longer than it, neither starting nor ending with whitespace; a line without surrounding whitespace is kept as it is |
| Extraction.Citations | bibcloud.py:174-191 | the returned keys are strictly sorted and are exactly the keys some line of the file contributes |
| Extraction.CitationsIgnoreLineOrder | bibcloud.py:191 | files with the same set of lines, in any order or multiplicity, give the same keys |
| Extraction.UnmarkedLineHasNoKeys | bibcloud.py:150-163 | a line without a marker contributes no key |
| Extraction.CitationsSkipUnmarkedLine | bibcloud.py:186-191 | adding a line without a marker does not change the keys |
| Extraction.StyleLines | bibcloud.py:177 | the style lines are exactly the lines that mention `\bibstyle` |
| Extraction.BibStyle | bibcloud.py:176-183 | with zero or several style lines the style stays `""`; with one line lacking `{` the script fails; otherwise the style is the text after that line's first `{`, up to the next brace |
| Extraction.LoadReferences | bibcloud.py:165-191 | loading succeeds exactly when the style does; the keys are `Citations` of the file and the style is `BibStyle` of its stripped lines |
| Overrides.StripComment | bibcloud.py:196-201 | the result has no `%`; with a `%` it is the text strictly before the first `%`; without one it is the line |
| Overrides.CleanLine | bibcloud.py:389-390 | a line stripped and cut at its comment; defined by its body; specified by `LineWordsClean`, `TitlePair` and `TitleLineStep` |
| Overrides.FileWords | bibcloud.py:389-393 | one word list per line; every word is non-empty and holds no whitespace and no comment `%` |
| Overrides.LineWordsClean | bibcloud.py:389-393 | the words of a stripped line cut at its comment are non-empty and hold no whitespace and no `%` |
| Overrides.IsAliasLine | bibcloud.py:394 | the test `len(x)>=2 and x[1].find("DBLP:")>=0`; defined by its body; specified by `PairsOf`, `BadOf`, `AliasPairsWellFormed` and `AliasRunOfPairs` |
| Overrides.PairsOf | bibcloud.py:392-397 | the alias pairs of a file are at most one per line and every DBLP side holds `DBLP:` |
| Overrides.BadOf | bibcloud.py:398-399 | every reported bad line is non-empty and is not an alias line |
| Overrides.AliasPairsWellFormed | bibcloud.py:388-397 | every alias is a non-empty word without whitespace and every DBLP side holds `DBLP:` |
| Overrides.TitlePair | bibcloud.py:408-410 | a cleaned line defines a title pair exactly when it has one `|`; the pair's sides joined with `|` give back the line |
| Overrides.TitlePairs | bibcloud.py:404-411 | no title pair side holds `|` or a comment `%` |
| Overrides.TitleLineStep | bibcloud.py:407-410 | one turn of the title loop adds the line's pair, when it has one, to the dictionary built from the earlier lines |
| Overrides.Assign | bibcloud.py:396-397 | defined by its body (dictionary updates in order); specified by `AssignKeys`, `AssignLastWins` and `AssignUntouched` |
| Overrides.WithAliases | bibcloud.py:392-397 | defined by its body; specified by `WithAliasesSnoc`, `WithAliasesConsistent` and `DistinctAliasesInverse` |
| Overrides.AliasLineStep | bibcloud.py:393-399 | defined by its body; specified by `AliasRunOfPairs` and the contract of `Tables.AddAliasLine` |
| Overrides.AliasRunOf | bibcloud.py:388-401 | defined by its body; specified by `AliasRunOfPairs` and the contract of `Tables.LoadAliases` |
| Overrides.AssignKeys | bibcloud.py:396-397 | after the loop a key is present exactly when it was before or some pair sets it |
| Overrides.AssignLastWins | bibcloud.py:396-397 | a key is bound to the value of the last pair that sets it |
| Overrides.AssignUntouched | bibcloud.py:410 | a key no pair sets keeps its presence and value |
| Overrides.WithAliasesSnoc | bibcloud.py:396-397 | one more alias line sets the alias in `ALIAS` and its inverse in `REVALIAS` |
| Overrides.WithAliasesConsistent | bibcloud.py:392-397 | the alias loop keeps every alias mapped to a reverse entry, every reverse entry mapped to an alias, and `DBLP:` on the DBLP side |
| Overrides.AliasRunOfPairs | bibcloud.py:392-399 | the line-by-line loop sets exactly the file's alias pairs in order and reports exactly its bad lines |
| Overrides.DistinctAliasesInverse | bibcloud.py:396-397 | with pairwise distinct aliases and DBLP keys, `ALIAS` and `REVALIAS` are inverse to each other |
| Overrides.SharedKeyBreaksInverse | bibcloud.py:396-397 | two aliases for one DBLP key leave the tables non-inverse (the code does not enforce bijectivity) |
| Overrides.FindRevAlias | bibcloud.py:204-208 | the alias the document uses for a DBLP key when there is one, otherwise the key itself |
| Overrides.Resolve | bibcloud.py:415 | each citation is replaced by its alias target when it has one, position by position |
| Overrides.Conflicts | bibcloud.py:418 | the reported keys are exactly the citations that are also DBLP sides of an alias |
| Overrides.ConflictsAppend | bibcloud.py:418 | the reported citations keep their order: the filter distributes over concatenation |
| Overrides.Backmap | bibcloud.py:423 | `latex_backmap` has exactly the resolved keys, each mapped to its reverse alias |
| Overrides.BackmapRecoversCitation | bibcloud.py:415-423 | with inverse tables and no reported conflict, the backmap takes every resolved key back to the document's own citation |
| Overrides.Tables.constructor | bibcloud.py:143-145 | the three tables start empty |
| Overrides.Tables.AddAliasLine | bibcloud.py:393-399 | one alias-loop turn: an alias line updates both tables, another non-empty line is reported as bad, an empty one is ignored |
| Overrides.Tables.LoadAliases | bibcloud.py:388-401 | after the alias loop the tables are the old ones updated by the file's pairs in order, consistency is kept, the bad lines are reported, and `TITLESUB` is untouched |
| Overrides.Tables.SetTitle | bibcloud.py:408-410 | one title-loop turn: a line with two `|`-parts sets its pair; the alias tables are untouched |
| Overrides.Tables.LoadTitles | bibcloud.py:404-411 | after the title loop `TITLESUB` is the old one updated by the file's title pairs in order; the alias tables are untouched |
| Cache.Indexed | bibcloud.py:219-222 | defined by its body; specified by `IndexedKeys`, `IndexedLastWins` and `IndexedWellKeyed` |
| Cache.IndexedKeys | bibcloud.py:219-222 | after indexing, a key is present exactly when it was before or an entry record carries it with the `DBLP:` prefix |
| Cache.IndexedLastWins | bibcloud.py:219-222 | a key is bound to the last entry record in the file that carries it |
| Cache.IndexedWellKeyed | bibcloud.py:219-222 | every indexed record is an entry record stored under `DBLP:` and its own key |
| Cache.IsDblpStartsWith | bibcloud.py:226 | `c.find("DBLP:")==0` holds exactly when `c` starts with `DBLP:` |
| Cache.Foreign | bibcloud.py:226 | the foreign citations are exactly the citations that are not DBLP keys |
| Cache.Missing | bibcloud.py:227 | the missing citations are exactly the DBLP keys the cache does not hold |
| Cache.ForeignAppend | bibcloud.py:226 | the foreign citations keep their order: the filter distributes over concatenation |
| Cache.MissingAppend | bibcloud.py:227 | the missing citations keep their order: the filter distributes over concatenation |
| Cache.Classified | bibcloud.py:226-227 | every citation is foreign, missing or cached; none is both foreign and missing; a cached key is not missing |
| Cache.FetchKey | bibcloud.py:238 | `c[5:]` is the key after `DBLP:` of a DBLP citation, and `""` for a shorter text |
| Cache.DblpCache.constructor | bibcloud.py:80 | `DBLP_article` starts empty |
| Cache.DblpCache.Load | bibcloud.py:215-222 | one pass over the cache's records stores every entry record under its DBLP key and counts all records |
| Escaping.LastWord | bibcloud.py:286-287 | the last word is a space-free suffix of the name, preceded by a space when it is not the whole name |
| Escaping.LastWordIs | bibcloud.py:287 | any space-free suffix that starts the name or follows a space is the last word |
| Escaping.SplitSpaceLast | bibcloud.py:286-290 | the last part of `a.split(' ')` is the last word, and joining the other parts with spaces gives the name before it |
| Escaping.SliceIsTriple | bibcloud.py:288 | `lastword[0:3] == '000'` holds exactly when the last word starts with `000` |
| Escaping.AuthorTrim | bibcloud.py:285-294 | a name whose last word starts with `000` loses that word and the space before it (or becomes `""` when it is one word); any other name is unchanged |
| Escaping.Transliterate | bibcloud.py:303-309 | defined by its body; specified by `TransliterateAppend`, `TransliterateUntabled` and `AsciiPathsAgree` |
| Escaping.Converted | bibcloud.py:299-311 | defined by its body; specified by `AsciiPathsAgree` and the contract of `HtmlToBibtex2` |
| Escaping.IsAscii | bibcloud.py:299-300 | every character is ASCII, so `str(h)` succeeds; defined by its body; specified by `AsciiPathsAgree`, `HtmlToBibtex2` and `HtmlToBibtex` |
| Escaping.TransliterateAppend | bibcloud.py:303-309 | the fallback loop distributes over concatenation |
| Escaping.TransliterateUntabled | bibcloud.py:306-309 | characters without a table entry pass through unchanged |
| Escaping.AsciiPathsAgree | bibcloud.py:299-311 | with a table of non-ASCII keys, the fallback loop returns ASCII text unchanged, as `str(h)` does |
| Escaping.ApproxTransliterated | bibcloud.py:280 | `≈` becomes `{$\approx$}` and its neighbours stay |
| Escaping.HtmlToBibtex2 | bibcloud.py:297-311 | the loop returns ASCII text unchanged and builds the transliteration character by character otherwise |
| Escaping.HtmlToBibtex | bibcloud.py:314-317 | on ASCII text the result is the text with every `&` replaced by `{\&}`; in every result each `&` follows a backslash |
| Escaping.HtmlToBibtexExample | bibcloud.py:314-317 | `AT&T` becomes `AT{\&}T` |
| Escaping.EscapePercent | bibcloud.py:320-327 | the recursion puts a backslash before every `%`, as the replacement of `%` by `\%` does |
| Escaping.PercentSplit | bibcloud.py:321-323 | escaping splits at the first `%` into the prefix, `\%` and the escaped rest |
| Escaping.EscapePercentLength | bibcloud.py:320-327 | escaping lengthens the text by its number of `%`, and leaves text without `%` unchanged |
| Escaping.EscapePercentAmp | bibcloud.py:331-350 | defined by its body; specified by `EscapePercentAmpPlain`, `EscapedAmpKept`, `PercentFirst`, `AmpersandFirst`, `EscapePercentAmpKeepsPrefix` and `EscapePercentAmpSkipsEarlyPercent` |
| Escaping.EscapeBoth | bibcloud.py:331-350 | the reference escaping of every `%` and `&`; defined by its body and specified by `EscapeBothAppend` and `EscapeBothPlain` |
| Escaping.EscapePercentAmpPlain | bibcloud.py:331-350 | on text without `\&`, `escape_percent_amp` escapes every `%` and `&`, like the reference `EscapeBoth` |
| Escaping.EscapeBothAppend | bibcloud.py:331-350 | the reference escaping distributes over concatenation |
| Escaping.EscapeBothPlain | bibcloud.py:350 | text without `%` or `&` is left unchanged by the reference |
| Escaping.EscapedAmpKept | bibcloud.py:333-336 | text with `\&` is copied up to and including its first `\&`, and only the rest is processed |
| Escaping.PercentFirst | bibcloud.py:341-342 | when `%` comes before any `&`, it is escaped first |
| Escaping.AmpersandFirst | bibcloud.py:345-346 | when `&` comes before any `%`, it is escaped first |
| Escaping.EscapePercentAmpKeepsPrefix | bibcloud.py:333-336 | the output starts with the input up to its first `\&` |
| Escaping.EscapedAmpAt | bibcloud.py:333 | `\&` occurs exactly where a backslash is followed by `&` |
| Escaping.NoBackslashNoEscapedAmp | bibcloud.py:333 | text without a backslash has no `\&` |
| Escaping.EscapeBothExample | bibcloud.py:331-350 | the reference escapes both `&` and `%` in one text |
| Escaping.EscapePercentAmpExample | bibcloud.py:338-348 | `escape_percent_amp` escapes an `&` followed by a `%` in plain text |
| Escaping.EscapePercentAmpSkipsEarlyPercent | bibcloud.py:333-336 | a `%` before the first `\&` stays unescaped while a later one is escaped |
| Escaping.EscapePercentAmpAfterPrefix | bibcloud.py:333-336 | a prefix ending in its first `\&` is kept and the rest is escaped on its own |
| Escaping.EscapePercentAmpIdempotent | bibcloud.py:331-350 | on text without `%`, escaping twice gives the same as escaping once |
| Escaping.EscapePercentAmpNotIdempotent | bibcloud.py:331-350 | escaping is not idempotent on `%`: `%` becomes `\%`, and escaping that again gives `\\%` |
| Escaping.EscapeLonePercent | bibcloud.py:338-342 | a lone `%` becomes `\%` |
| Escaping.EscapeEscapedPercent | bibcloud.py:333-342 | `\%` holds no `\&`, so its `%` is escaped again, giving `\\%` |
| Escaping.NothingToEscape | bibcloud.py:350 | text without `\&`, `%` or `&` is returned unchanged |
| Escaping.StableAfterAmp | bibcloud.py:345-346 | after an `&` is escaped, the escaped prefix is kept by a second pass |
| Escaping.DoiEeLine | bibcloud.py:357-369 | defined by its body; specified by `EeLineIs`, `DoiEeLineCases` and the contract of `OutputDoiEe` |
| Escaping.RemovePrefixes | bibcloud.py:359-361 | every occurrence of each resolver prefix removed, prefix by prefix; defined by its body; specified by `RemovePrefixesChanges`, `EeLineIs` and `DoiEeLineCases` |
| Escaping.RemovePrefixesChanges | bibcloud.py:360-361 | removing the prefixes never lengthens the URL; it leaves the URL unchanged when none occurs and shortens it when one does |
| Escaping.EeLineIs | bibcloud.py:365-367 | a URL left unchanged by the prefix removal gives an `ee` line with its `%` escaped |
| Escaping.DoiEeLineCases | bibcloud.py:357-369 | a URL of no resolver gives an `ee` line with its `%` escaped; a URL of a resolver gives a `doi` line with the prefixes removed, strictly shorter than the URL |
| Escaping.OutputDoiEe | bibcloud.py:357-369 | the method returns the `ee`/`doi` line of the URL |
| Emission.FieldList | bibcloud.py:82-105 | `DBLP_fieldlist`; defined by its body; specified by `FieldListNames` and `FieldListPlain` |
| Emission.FieldListNames | bibcloud.py:82-105 | the listed names are single words, none is a line the emitter writes itself, and `ee` is the only link |
| Emission.FieldListPlain | bibcloud.py:82-105 | no entry type lists `keywords`, `bibsource` or `doi`, and `ee` is always a link |
| Emission.CountNamedAppend | bibcloud.py:439-507 | counting the field lines of a name distributes over concatenation of the written chunks |
| Emission.NamesUnique | bibcloud.py:471-506 | a field line names one field only |
| Emission.CountNamedOne | bibcloud.py:471-506 | a field line counts once for its own name and not at all for another |
| Emission.CountNamedNone | bibcloud.py:463-507 | a chunk not starting with a space is not a field line |
| Emission.HeaderLine | bibcloud.py:462-465 | the header chunk starts a new line |
| Emission.IncollectionHeader | bibcloud.py:462-463 | an `incollection` is written with the header of an `inproceedings` |
| Emission.AuthorLine | bibcloud.py:466 | the names joined with ` and ` in braces; defined by its body; specified by `AuthorLineSnoc` and `RecordFrame` |
| Emission.AuthorTexts | bibcloud.py:454 | the author texts are exactly the texts of the `author` children |
| Emission.AuthorTextsSnoc | bibcloud.py:454 | one more child adds its text exactly when it is an `author` |
| Emission.TrimmedNames | bibcloud.py:455-456 | one converted and trimmed name per author text |
| Emission.AuthorNamesSnoc | bibcloud.py:454-456 | one more author child adds its converted, trimmed name; any other child adds nothing |
| Emission.AuthorLineSnoc | bibcloud.py:454-466 | a further author adds ` and ` and its name to the author line; any other child leaves it |
| Emission.PlainFieldLine | bibcloud.py:470-476 | the line written for a listed non-link child is a field line for that child's tag |
| Emission.TitleSubstituted | bibcloud.py:473-474 | a title with a substitute is written from the substitute in double braces, and the conversion table plays no part |
| Emission.FieldStep | bibcloud.py:469-480 | defined by its body; specified by `FieldStepAppends`, `PlainFieldLine` and `TitleSubstituted` |
| Emission.FieldsRun | bibcloud.py:468-480 | defined by its body; specified by `FieldsRunAppend`, `FieldsAfterEe`, `FieldsBeforeEe`, `FieldsCount` and `FieldsLinks` |
| Emission.FieldsRunAppend | bibcloud.py:468-480 | the loop over the children is a left fold of its single turns |
| Emission.FieldStepAppends | bibcloud.py:468-480 | a listed child adds its line; a link adds its line only when none was written yet, and then sets `processedEE` |
| Emission.FirstEe | bibcloud.py:477-480 | the first link child, or -1 exactly when there is none |
| Emission.FieldsAfterEe | bibcloud.py:457-458 | with `processedEE` set from the start (style `abbrvnat`), no link is written and every plain child has its line |
| Emission.FieldsBeforeEe | bibcloud.py:468-480 | starting with `processedEE` clear, the loop writes the plain lines and only the first link |
| Emission.PlainFieldLinesCount | bibcloud.py:470-476 | the plain lines hold no line for a name that is not listed or is a link |
| Emission.FieldsCount | bibcloud.py:468-480 | the field loop writes no line for a name that is not listed and is not `ee` or `doi` |
| Emission.FieldsLinks | bibcloud.py:477-480 | the field loop writes one `ee`/`doi` line when `processedEE` starts clear and a link child exists, otherwise none |
| Emission.Year | bibcloud.py:485 | `text[2:]`: the year without its century, or `""` for a shorter text |
| Emission.Venue | bibcloud.py:488-489 | the booktitle after the lookup; defined by its body; specified by `BooktitleShape` and `VenueKeywords` |
| Emission.BooktitleLine | bibcloud.py:484-499 | defined by its body; specified by `BooktitleShape`, `BareBooktitleInjective` and `BareVenueLine` |
| Emission.BooktitleShape | bibcloud.py:487-499 | the booktitle line names the venue after the lookup; it is quoted when the name is looked up and is unknown or maps to a name with a space, and is otherwise the bare venue with the year appended |
| Emission.BareBooktitleInjective | bibcloud.py:493 | bare booktitle lines for one year are equal exactly when the venues are |
| Emission.BareVenueLine | bibcloud.py:488-493 | a looked-up name that maps to a one-word venue gives the bare venue with the year |
| Emission.NoAckConference | bibcloud.py:108-134 | `NOACKCONFERENCE`; defined by its body; specified by `UsenixSecurityMapped` and `UsenixSecurityExample` |
| Emission.UsenixSecurityLooksUp | bibcloud.py:487 | `USENIX Security Symposium` has a space past its first character, so it is looked up |
| Emission.UsenixSecurityMapped | bibcloud.py:125 | `USENIX Security Symposium` maps to `USS` |
| Emission.UsenixSecurityExample | bibcloud.py:484-493 | a 2019 USENIX Security paper gets the booktitle `USS19` |
| Emission.YearOf | bibcloud.py:485 | the year 2019 is written as `19` |
| Emission.VenueLines | bibcloud.py:484-502 | the booktitle line, then the keyword for a workshop or an `incollection`; defined by its body; specified by `VenueKeywords`, `VenueCount` and the contract of `BibFile.WriteVenue` |
| Emission.VenueKeywords | bibcloud.py:501-502 | the workshop keyword is written once exactly when the venue is a workshop or the entry is an `incollection` |
| Emission.VenueCount | bibcloud.py:484-502 | the venue lines hold no line other than `booktitle` and `keywords` |
| Emission.TrailerBibsource | bibcloud.py:505-506 | the alias note is written once exactly when the document cites the key through an alias |
| Emission.TrailerCount | bibcloud.py:505-507 | the trailer holds no field line other than `bibsource` |
| Emission.FindChild | bibcloud.py:485-486 | `xml.find(tag)` is the first child with the tag, or none exactly when no child has it |
| Emission.RecordOutput | bibcloud.py:446-507 | defined by its body; specified by `RecordFaults`, `RecordParts`, `RecordFrame`, `RecordCount`, `RecordKeywords`, `RecordBibsource` and `RecordLinks` |
| Emission.RecordFaults | bibcloud.py:447-486 | the entry stops exactly on an unknown tag (writing nothing), or on a conference paper without `year` or without `booktitle`; otherwise it completes |
| Emission.RecordParts | bibcloud.py:444-507 | a completed entry is the front, the venue lines and the trailer; a stopped known entry is its front only |
| Emission.RecordFrame | bibcloud.py:462-507 | a completed entry starts with its header and author line and ends with the closing brace |
| Emission.RecordStops | bibcloud.py:484-486 | a conference paper without `year`, or with `year` but without `booktitle`, writes its front and stops with that fault |
| Emission.RecordCompletes | bibcloud.py:444-507 | an entry record with the year and booktitle its type needs completes, writing front, venue and trailer |
| Emission.FrontCount | bibcloud.py:462-480 | in the front, the lines of a name other than `author` are exactly those of the field loop |
| Emission.RecordCount | bibcloud.py:444-507 | in a completed entry, the lines of a name other than `author` are those of the field loop, the venue and the trailer |
| Emission.FaultCount | bibcloud.py:484-486 | in a stopped entry, the lines of a name other than `author` are those of the field loop |
| Emission.RecordVenueCount | bibcloud.py:484-502 | the record's venue part writes only `booktitle` and `keywords` lines, and the keyword exactly for a marked workshop with year and booktitle |
| Emission.RecordKeywords | bibcloud.py:501-502 | a completed entry has the workshop keyword once exactly when it is a workshop paper or an `incollection`, and otherwise not |
| Emission.RecordBibsource | bibcloud.py:505-506 | a completed entry has the alias note once exactly when its document key differs from the DBLP key, and then just before the closing brace |
| Emission.RecordLinks | bibcloud.py:457-480 | every entry has at most one `ee`/`doi` line: none under `abbrvnat` or without a link child, one otherwise |
| Emission.AliasNote | bibcloud.py:463-506 | the entry's header uses the alias the document cites, and the alias note appears exactly when that alias differs from the DBLP key |
| Emission.BibStep | bibcloud.py:444-507 | defined by its body; specified by `BibRunSnoc`, `BibRunSkipsUncached` and `BibRunStops` |
| Emission.BibRun | bibcloud.py:439-507 | defined by its body; specified by `BibRunSnoc`, `BibRunHeader`, `BibRunStops`, `BibRunCompletes` and `BibRunKnownTags` |
| Emission.BibRunSnoc | bibcloud.py:444-446 | the file loop is a left fold of its turns |
| Emission.BibRunHeader | bibcloud.py:439-441 | the file always begins with the two header comment lines |
| Emission.BibRunSkipsUncached | bibcloud.py:445 | a citation the cache does not hold adds nothing |
| Emission.BibRunStops | bibcloud.py:444-486 | once the script stops, later citations add nothing, so the file keeps what was written up to the fault |
| Emission.BibRunCompletes | bibcloud.py:444-507 | the file is written to the end exactly when every cached citation's entry completes |
| Emission.BibRunKnownTags | bibcloud.py:447-449 | over a cache indexed by entry records the script never stops on an unknown tag |
| Emission.BibFile.Open | bibcloud.py:439 | a freshly opened file is empty |
| Emission.BibFile.Write | bibcloud.py:440 | a write appends one chunk |
| Emission.BibFile.WriteFields | bibcloud.py:468-480 | the field loop appends exactly the chunks of the fold over the children |
| Emission.BibFile.WriteVenue | bibcloud.py:484-502 | the venue part appends the booktitle line and, for workshops and `incollection`, the keyword |
| Emission.BibFile.EmitRecord | bibcloud.py:446-507 | the loop body appends exactly the entry's chunks and returns its fault |
| Emission.BibFile.EmitCitation | bibcloud.py:444-446 | one turn of the file loop, looking the document key up in `latex_backmap`, extends the file as the fold's next step |
| Emission.WriteDblpBib | bibcloud.py:439-507 | the written file and the fault are those of the fold over all resolved citations |

## Left out

- Fetching missing records with `curl`, the two-second pause, and moving
  temporary files (bibcloud.py:237-259). These are network and file-system
  effects. The model stops at the key `c[5:]` that would be fetched.
- Parsing and writing XML (bibcloud.py:217-223, 244-253, 429-435). The cache
  file is given as the sequence of its root's records, each with a tag, a
  `key` and its children's tags and texts.
- Reading the `.aux`, `dblp-alias.txt` and `dblp-title.txt` files, and
  opening `dblp.bib`. Files come in as sequences of lines. A missing
  override file reads as no lines. The output is the sequence of written
  chunks.
- `print`, `sys.exit` and `os.mkdir`. These are console and file-system
  effects. The exits appear as the faults of `Emission.Fault` and
  `Extraction.Fault`.
- The file-existence check of `load_references` (bibcloud.py:169-171).
  This is a file-system effect.
- Python 2 `str`/`unicode` and UTF-8 encoding. The ASCII test stands for
  `str(h)` succeeding, and strings are sequences of characters. The order
  of `sorted` is the order of character codes, which is Python 2's byte
  order on ASCII text.
- The entries of `HTML_TO_BIB` at bibcloud.py:266-279. They are illegible
  in the source text. The table is a parameter in every operation. The
  constant `HtmlToBib` holds only the readable entry for U+2248.
- The "BAD code" branch (bibcloud.py:482-483). No entry of the field list
  has a mode other than `id`, `double` and `ee`, so the branch cannot be
  reached.
- `None` texts of XML children. In the model every child has a text. In the
  script, `str(None)` is `"None"` (bibcloud.py:299-300), so an `author`, `id`
  or `double` child without text would be written as the literal `None`
  (bibcloud.py:455-456, 471-476). A text-less `ee` child raises at
  `None.replace` (bibcloud.py:361), a text-less `year` at `None[2:]`
  (bibcloud.py:485), and a text-less `booktitle` at `booktitle.find`
  (bibcloud.py:487-488).
- The venue table is a parameter (the field `venues` of `Emission.Config`) that
  `NoAckConference` (bibcloud.py:109-134) instantiates. This keeps the
  large literal out of the proofs. Only the example lemmas use the
  constant.
- Overrides.TitlePairs: its own contract states only that the sides hold
  no `|` and no comment. `TitlePair` and `TitleLineStep` tie it to the loop.
