# vote_crawler in Dafny

vote_crawler.py collects Austrian election results and writes one row per voting district
(Sprengel). It fetches all districts' result pages concurrently and takes the second HTML table
on each page as the vote table. For every party it reads the vote count next to the party's
label, then writes one CSV row per district. A URL whose page has fewer than two tables goes on
the list of broken URLs; a page whose second table names no party still gets a row of `-`.

This project models the pure and the imperative core of that script and proves what it does:

- `wrappers.dfy` (module `Wrappers`): `Option` and `Result`.
- `py_text.dfy` (module `PyText`): the Python built-ins the script relies on, written out.
  These are `sub in s` on strings, `str.split`, `str.endswith`, one-character `str.replace` and
  `list.index`. `Join` gives the `,`-separated fields that `rowtemplate.format` produces.
- `extractor.dfy` (module `Extractor`) covers `substringIndex`, `isSubstring` and
  `votingTableExtractor`.
  - A page is the sequence of its tables, each given as the texts of its `td` cells.
  - `str.upper` is a parameter `upper: string -> string`.
  - The label choice is characterised independently of the three-stage code as a rank:
    0 is a verbatim match, 1 the configured alternative spelling, 2 a cell containing the
    party's name and 3 no match. The chosen label is the best-ranked cell, the earliest of
    equal rank.
- `url_names.dfy` (module `UrlNames`) covers `nameFromURL`. It is a partial function, and its
  precondition `WellFormedUrl` names exactly the URLs that do not raise `IndexError`.
- `report.dfy` (module `Report`) covers the main block:
  - the `.csv` suffix rule;
  - `ORDER` and `rowtemplate`;
  - the header, written first, then the loop over `zip(urls, tasks)`, which writes one row per
    non-empty vote map and collects the broken URLs.

  The CSV file is modelled as the sequence of lines written to it. The rows are produced by
  `WriteResults`, a method with a loop, proved against the function `Tally`. `Tally` folds
  per-pair outcomes (`Entry`) and stops at the first exception.

Two behaviours of the code are easy to misread:

- **Name from a URL.** For `http://x.example/a?detailonr=007&y=1` the code names the district
  `example/a?detailonr=007&y=1`, not `example`. `nameFromURL` splits only at `.`, so the path and
  the query stay in the name. `UrlNames.NameKeepsPathAndQuery` states this for every URL with a
  single `.`.
- **The `-` sentinel.** A party maps to `"-"` when no cell matches it. The converse does not
  hold: when the cell after the chosen label is itself `-`, the value is `"-"` too. The model
  therefore states two implications instead of an if-and-only-if (`Extractor.ExtractionValues`).

## Model

| member | source | states |
|---|---|---|
| Extractor.IsSubstring | vote_crawler.py:40-42 | true exactly when some cell of the list contains `sub` |
| Extractor.SubstringIndex | vote_crawler.py:34-38 | a result exactly when `IsSubstring` holds; then the least index of a cell containing `sub` (`None` stands for the implicit `return None`) |
| Extractor.LeastContaining | vote_crawler.py:34-38 | when some cell contains `sub`, the least index of such a cell |
| Extractor.LabelIndex | vote_crawler.py:71-84 | the label cell chosen by the three stages, when there is one, is a cell that matches the party in one of the three ways |
| Extractor.AfterLabel | vote_crawler.py:73-81 | `fullTable[i+1]` succeeds exactly when the label is not the last cell and then gives the next cell; otherwise it is the `IndexError` for that party |
| Extractor.LabelIndexIsBest | vote_crawler.py:71-84 | no label is chosen exactly when no cell matches the party at all; a chosen label is the best-ranked cell, the earliest of its rank |
| Extractor.BestLabelUnique | vote_crawler.py:71-81 | the best-ranked, earliest label is unique, so the characterisation determines the choice |
| Extractor.ExactMatchWins | vote_crawler.py:72-73 | a party present verbatim takes the cell after its first verbatim occurrence, and the alternatives do not change that |
| Extractor.AlternativeStage | vote_crawler.py:76-77 | a party absent verbatim whose alternative occurs takes the cell after the alternative's first occurrence |
| Extractor.SubstringStage | vote_crawler.py:80-81 | when the exact and the alternative stage both fail, the label is the first cell containing the party's name |
| Extractor.NormalizeCell | vote_crawler.py:69 | a normalised cell holds no `,` |
| Extractor.NormalizeTable | vote_crawler.py:69 | normalisation keeps the number and order of the cells, normalises each cell, and leaves no `,` |
| Extractor.VotingTableExtractor | vote_crawler.py:45-86 | the loop over the parties computes `Extraction`; fewer than two tables give the empty map |
| Extractor.PartyValue | vote_crawler.py:72-84 | a party no cell matches records `-`; an iteration raises only with that party's `IndexError`, and only when the last cell matches the party |
| Extractor.ExtractFrom | vote_crawler.py:71-84 | the party loop over one table; when it raises, the error names one of the parties |
| Extractor.Extraction | vote_crawler.py:65-69 | fewer than two tables give the empty map; an error comes only from the second table and names one of the parties |
| Extractor.PartyLoop | vote_crawler.py:71-84 | the `for p in parties` loop, in order; a failed loop carries the error raised by one of the parties' iterations |
| Extractor.PartyLoopAbortsAt | vote_crawler.py:71-84 | a party that raises after every earlier party succeeded aborts the loop with its error |
| Extractor.PartyLoopKeys | vote_crawler.py:71-84 | a successful loop has exactly one key per party, holding what that party's iteration records |
| Extractor.PartyLoopSucceeds | vote_crawler.py:71-84 | the loop succeeds exactly when no party's iteration raises |
| Extractor.PartyLoopRaises | vote_crawler.py:71-84 | a failed loop carries the error of the first party that raised |
| Extractor.PartyValueRaises | vote_crawler.py:72-84 | an iteration raises `IndexError` exactly when the best label of the party is the last cell |
| Extractor.PartyValueMeaning | vote_crawler.py:72-84 | a party value that does not raise is `-` when no cell matches the party, otherwise the cell right after the best label, and holds no `,` when no cell does |
| Extractor.ExtractionValues | vote_crawler.py:65-84 | with two tables or more, the keys are exactly the parties and each party has a value without `,`; no matching cell gives `-`, otherwise its value is the cell right after the best label in the second table |
| Extractor.ExtractionNotEmpty | vote_crawler.py:65-84 | with two tables or more and a non-empty catalog, a successful extraction is non-empty and holds every party |
| Extractor.NormalizedCellIsUpper | vote_crawler.py:69 | a normalised cell is upper case, for any idempotent upper-casing that commutes with the comma replacement |
| Extractor.NormalizeCellIdempotent | vote_crawler.py:69 | normalising twice is normalising once, under the same assumptions on upper-casing |
| Extractor.NormalizeKeepsPlainCells | vote_crawler.py:69 | with upper-casing taken as the identity, cells without `,` are left as they are |
| Extractor.DecimalCommaExample | vote_crawler.py:69 | `12,5` becomes `12.5` |
| Extractor.TwoPartyExample | vote_crawler.py:71-73 | a two-party table yields the cell after each party's label |
| Extractor.PartyValuesOfTwoPartyExample | vote_crawler.py:72-73 | in that table each party's stage value is the cell after its label |
| Extractor.SubstringExample | vote_crawler.py:80-81 | a cell `ÖVP LISTE KURZ` is found as a label of `ÖVP` by the substring stage |
| Extractor.OneTableExample | vote_crawler.py:65-66 | a page with a single table gives the empty map |
| PyText.FindFrom | vote_crawler.py:37 | the first occurrence of `sub` at or after `start`, or none at all |
| PyText.Find | vote_crawler.py:37 | the first occurrence of `sub`, or none at all |
| PyText.Contains | vote_crawler.py:37 | `sub in s` holds exactly when `sub` occurs somewhere in `s` |
| PyText.ContainsChar | vote_crawler.py:106-108 | for a one-character string, containment is membership of that character |
| PyText.Join | vote_crawler.py:113 | joining no parts gives the empty string; otherwise the result is no shorter than its first part |
| PyText.Split | vote_crawler.py:106 | `split` always yields at least one piece |
| PyText.SplitJoin | vote_crawler.py:106 | joining the pieces of a split with the separator gives back the string |
| PyText.SplitPiecesFree | vote_crawler.py:106-108 | no piece of a split contains the separator |
| PyText.SplitPieceChars | vote_crawler.py:106-108 | every character of a piece is a character of the string |
| PyText.SplitInTwoIff | vote_crawler.py:106-108 | a split gives two pieces or more exactly when the separator occurs |
| PyText.SplitHead | vote_crawler.py:108 | the first piece is the text before the first occurrence of the separator, or all of the string when there is none |
| PyText.SplitSecond | vote_crawler.py:107 | the second piece is the first piece of what follows the first occurrence |
| PyText.SplitLast | vote_crawler.py:108 | the last piece is a suffix that is all of the string or directly follows an occurrence |
| PyText.JoinSplit | vote_crawler.py:113 | pieces free of a one-character separator split back out of their join |
| PyText.EndsWith | vote_crawler.py:26 | `s.endswith(suffix)` holds exactly when the last `len(suffix)` characters of `s` are those of `suffix` |
| PyText.ReplaceChar | vote_crawler.py:69 | same length; each character equal to `from` is replaced by `to`, and every other character is kept |
| PyText.ReplaceCharRemoves | vote_crawler.py:69 | after `replace(",", ".")` no `,` is left |
| PyText.ReplaceCharAbsent | vote_crawler.py:69 | replacing a character that does not occur changes nothing |
| PyText.ReplaceCharIdempotent | vote_crawler.py:69 | replacing twice is replacing once |
| PyText.IndexOf | vote_crawler.py:73 | `list.index` is the first position holding the value |
| UrlNames.NameFromUrl | vote_crawler.py:105-109 | the name is the second `.`-segment, free of `.`; the Sprengel is the value after the first `detailonr=` in the last segment, cut at the first `&` or at the next `detailonr=`, and holds no `&` |
| UrlNames.NameIsSecondSegment | vote_crawler.py:106-107 | `parts[1]` runs from just after the first `.` to the next `.` or the end |
| UrlNames.SprengelIsDetailValue | vote_crawler.py:108 | the Sprengel is the detail value of the last segment and holds no `&` |
| UrlNames.LastPartIsLastSegment | vote_crawler.py:108 | `parts[-1]` is what follows the last `.` |
| UrlNames.DetailValueOfSegment | vote_crawler.py:108 | the value taken after the first marker is the segment's detail value |
| UrlNames.DetailValueOfRest | vote_crawler.py:108 | what follows the marker, cut at the next marker and then at `&`, ends at `&`, at a marker or at the end |
| UrlNames.NameFromUrlChars | vote_crawler.py:105-109 | name and Sprengel are made only of characters of the URL |
| UrlNames.WellFormedUrlIff | vote_crawler.py:106-108 | `nameFromURL` avoids `IndexError` exactly when the URL has a `.` and its last part holds `detailonr=` |
| UrlNames.NameKeepsPathAndQuery | vote_crawler.py:106-107 | for a URL with a single `.`, the name is everything after the `.`, path and query included |
| Report.OutputPath | vote_crawler.py:26 | the path ends with `.csv`; it is the argument itself exactly when the argument already ends with `.csv`, and otherwise the argument with `.csv` appended (it starts with the argument and is four characters longer) |
| Report.OutputPathIdempotent | vote_crawler.py:26 | applying the rule twice gives the same path |
| Report.RowTemplate | vote_crawler.py:113 | a formatted row ends with a newline |
| Report.RowTemplateFields | vote_crawler.py:113 | a row of eight fields without `,` splits back into those fields |
| Report.HeaderRow | vote_crawler.py:126 | the header ends with a newline and reads back as `Gemeinde-Sprengel` followed by the parties of `ORDER` |
| Report.FirstMissingFrom | vote_crawler.py:133 | the first party of `ORDER` that the map lacks, where `r[p]` raises `KeyError` |
| Report.SortedResults | vote_crawler.py:133 | one value per party of `ORDER`, in `ORDER` order: position `k` holds the votes of `ORDER[k]` |
| Report.DataRow | vote_crawler.py:134-135 | a data row ends with a newline |
| Report.DataRowFields | vote_crawler.py:133-135 | a data row reads back as `<name>-<sprengel>` followed by the votes in `ORDER` order |
| Report.Entry | vote_crawler.py:128-135 | a malformed URL stops the loop before its map is looked at; an empty map makes the URL broken; a map lacking a party stops the loop with the first party of `ORDER` that it lacks; any other map gives its data row |
| Report.Entries | vote_crawler.py:127 | one outcome per pair of `zip` |
| Report.Min | vote_crawler.py:127 | `zip` reads as many pairs as the shorter list has |
| Report.Tally | vote_crawler.py:127-135 | at most one line per pair read; a reported error is that of a pair that raised |
| Report.StepStop | vote_crawler.py:127-135 | a pair that raises while the loop runs reports its error and writes nothing |
| Report.StepBroken | vote_crawler.py:127-135 | an empty map read while the loop runs adds its URL to the broken list |
| Report.StepRow | vote_crawler.py:127-135 | a data row read while the loop runs is written after the header and the earlier rows |
| Report.TallyStops | vote_crawler.py:127-135 | after an exception, later pairs write nothing |
| Report.WriteResults | vote_crawler.py:125-135 | the header comes first, then the rows, broken URLs and stopping error that `Tally` gives for the first `min(len(urls), len(results))` pairs |
| Report.TallyCompletes | vote_crawler.py:127-135 | the loop runs to the end exactly when no pair raises |
| Report.TallyCounts | vote_crawler.py:127-135 | rows plus broken URLs number the pairs read: all of them, or those before the first pair that raised, whose error is the one reported |
| Report.TallyOrigins | vote_crawler.py:127-135 | rows and broken URLs come from increasing input positions that together cover every pair read |
| Report.WrittenPartition | vote_crawler.py:127-135 | when nothing raises, each row is the data row of a URL with a non-empty map and each broken URL has an empty map, both in input order; together they number `min(len(urls), len(results))` |
| Report.OrderIsCatalog | vote_crawler.py:112 | the columns of `ORDER` are the extractor's default parties |
| Report.ExtractedVotesFitRow | vote_crawler.py:130-135 | a non-empty map from the extractor's default catalog holds every party of `ORDER`, with no `,` in any value, so it never raises `KeyError` and its fields read back |

## Left out

- HTML parsing with `bs4` (`BeautifulSoup`, `findAll`, `.text`) is a foreign library. A page is
  given as its tables' cell texts.
- `str.upper` is Unicode library behaviour. It is a parameter of the extractor. The properties
  about upper case assume only that it is idempotent and commutes with the comma replacement.
- Fetching with aiohttp and asyncio (`fetchContent`, `collectVotingData`, the global `tasks`
  list) is concurrency and network I/O.
  - The loop takes the vote maps directly.
  - An exception re-raised by `t.result()` (a network error, or an extractor `IndexError`) is
    not modelled. It is not a broken URL.
- Reading the arguments and the URL file is I/O, including `strip()` on each line. Opening the
  CSV (`w` or `a` mode) and writing `broken_municipalities.txt` are I/O as well. That file name
  ignores `--brokenurlfile`.
  - The model returns the lines and the broken list instead.
  - After an exception, the returned lines are those written before it, and the broken list is
    never written.
- Timing and the progress messages are output only.
- `rowtemplate.format` with fewer than eight arguments would raise `IndexError`. The script
  always passes exactly eight, so `RowTemplate` requires at least eight.
- PyText.SplitLast: does not state that the last piece is free of the separator. That holds for
  every piece and is `SplitPiecesFree`.
- PyText.Join: its contract fixes only the empty join and that the result is no shorter than its
  first part. What a join produces is stated by the round trips `SplitJoin` and `JoinSplit`.
- Report.HeaderRow: the header is stated through its fields, not as its literal text.
- UrlNames.NameKeepsPathAndQuery: states the name, not the Sprengel, for URLs with a single `.`.
  The Sprengel is characterised for every URL by `NameFromUrl`.
