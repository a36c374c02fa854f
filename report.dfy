/**
 * The main block of vote_crawler.py after the pages are fetched: the output path, the CSV header,
 * one row per municipality whose page gave votes, and the list of URLs whose page gave none.
 * The file is modelled as the sequence of lines written to it.
 */
module Report {
  import opened Wrappers
  import opened PyText
  import opened UrlNames
  import Extractor

  /** The order of the party columns in the CSV file. */
  const ORDER: seq<string> := ["ÖVP", "SPÖ", "FPÖ", "NEOS", "JETZT", "GRÜNE", "WANDL"]

  /** The label of the first column. */
  const HEADER_LABEL: string := "Gemeinde-Sprengel"

  const CSV_SUFFIX: string := ".csv"

  /** The path written to: `--outfile` with `.csv` appended unless it already ends with it. */
  function OutputPath(outfile: string): (r: string)
    ensures EndsWith(r, CSV_SUFFIX)
    ensures outfile <= r && (|r| == |outfile| || |r| == |outfile| + |CSV_SUFFIX|)
    ensures r == outfile <==> EndsWith(outfile, CSV_SUFFIX)
  {
    if EndsWith(outfile, CSV_SUFFIX) then outfile else outfile + CSV_SUFFIX
  }

  /** Applying the suffix rule to its own result changes nothing. */
  lemma OutputPathIdempotent(outfile: string)
    ensures OutputPath(OutputPath(outfile)) == OutputPath(outfile)
  {
  }

  /**
   * `rowtemplate.format(*args)`: the template has eight `{}` fields separated by `,` and ends
   * with a newline; arguments past the eighth are ignored.
   */
  function RowTemplate(args: seq<string>): (r: string)
    requires |args| >= 8
    ensures |r| > 0 && r[|r| - 1] == '\n'
  {
    Join(args[..8], ",") + "\n"
  }

  /** A row whose fields hold no `,` splits back, without its newline, into those fields. */
  lemma RowTemplateFields(args: seq<string>)
    requires |args| >= 8
    requires forall k :: 0 <= k < 8 ==> ',' !in args[k]
    ensures var r := RowTemplate(args); Split(r[..|r| - 1], ",") == args[..8]
  {
    var r := RowTemplate(args);
    var fields := args[..8];
    assert r[..|r| - 1] == Join(fields, ",");
    assert forall k :: 0 <= k < |fields| ==> ',' !in fields[k];
    assert [','] == ",";
    JoinSplit(fields, ',');
  }

  /** The header line: the first column's label, then the parties in `ORDER` order. */
  function HeaderRow(): (r: string)
    ensures |r| > 0 && r[|r| - 1] == '\n'
    ensures Split(r[..|r| - 1], ",") == [HEADER_LABEL] + ORDER
  {
    var args := [HEADER_LABEL] + ORDER;
    assert forall k :: 0 <= k < 8 ==> ',' !in args[k];
    RowTemplateFields(args);
    assert args[..8] == args;
    RowTemplate(args)
  }

  /** A vote map holds every party of `ORDER` (otherwise `r[p]` raises a `KeyError`). */
  predicate HasAllParties(votes: map<string, string>)
  {
    forall k :: 0 <= k < |ORDER| ==> ORDER[k] in votes
  }

  /** The first party of `ORDER`, from `k` on, that a vote map lacks. */
  function FirstMissingFrom(votes: map<string, string>, k: nat): (r: nat)
    requires k <= |ORDER|
    requires exists j :: k <= j < |ORDER| && ORDER[j] !in votes
    ensures k <= r < |ORDER| && ORDER[r] !in votes
    ensures forall j :: k <= j < r ==> ORDER[j] in votes
    decreases |ORDER| - k
  {
    if ORDER[k] !in votes then k else FirstMissingFrom(votes, k + 1)
  }

  /** `[r[p] for p in ORDER]`. */
  function SortedResults(votes: map<string, string>): (r: seq<string>)
    requires HasAllParties(votes)
    ensures |r| == |ORDER|
    ensures forall k :: 0 <= k < |ORDER| ==> r[k] == votes[ORDER[k]]
  {
    seq(|ORDER|, k requires 0 <= k < |ORDER| => votes[ORDER[k]])
  }

  /** The row of one municipality: `<name>-<sprengel>`, then its votes in `ORDER` order. */
  function DataRow(url: string, votes: map<string, string>): (r: string)
    requires WellFormedUrl(url) && HasAllParties(votes)
    ensures |r| > 0 && r[|r| - 1] == '\n'
  {
    var (name, sprengel) := NameFromUrl(url);
    RowTemplate([name + "-" + sprengel] + SortedResults(votes))
  }

  /**
   * A data row reads back as eight fields: the municipality key and the votes in `ORDER` order,
   * when neither the URL nor a vote holds a `,`.
   */
  lemma DataRowFields(url: string, votes: map<string, string>)
    requires WellFormedUrl(url) && HasAllParties(votes)
    requires ',' !in url
    requires forall k :: 0 <= k < |ORDER| ==> ',' !in votes[ORDER[k]]
    ensures var r := DataRow(url, votes); var fields := Split(r[..|r| - 1], ",");
      && |fields| == 1 + |ORDER|
      && fields[0] == NameFromUrl(url).0 + "-" + NameFromUrl(url).1
      && forall k :: 0 <= k < |ORDER| ==> fields[k + 1] == votes[ORDER[k]]
  {
    var (name, sprengel) := NameFromUrl(url);
    var args := [name + "-" + sprengel] + SortedResults(votes);
    NameFromUrlChars(url, ',');
    assert ',' !in name + "-" + sprengel;
    RowTemplateFields(args);
    assert args[..8] == args;
  }

  /** Why writing the CSV stops: `nameFromURL` fails on a URL, or a vote map lacks a party. */
  datatype WriteError = MalformedUrl(url: string) | MissingParty(url: string, party: string)

  /** What one pair of `zip(urls, results)` contributes. */
  datatype Outcome = Row(text: string) | Broken(url: string) | Stop(error: WriteError)

  /**
   * The outcome of one (URL, vote map) pair: the URL is read before the map is looked at, an
   * empty map makes the URL broken, and any other map gives a row or stops on a missing party.
   */
  function Entry(url: string, votes: map<string, string>): (r: Outcome)
    ensures r == Stop(MalformedUrl(url)) <==> !WellFormedUrl(url)
    ensures r.Broken? <==> WellFormedUrl(url) && votes == map[]
    ensures r.Broken? ==> r.url == url
    ensures r.Stop? ==> r.error.url == url
    ensures r.Stop? && r.error.MissingParty? ==>
      WellFormedUrl(url) && votes != map[] && !HasAllParties(votes) && r.error.url == url &&
      r.error.party == ORDER[FirstMissingFrom(votes, 0)]
    ensures r.Row? <==> WellFormedUrl(url) && votes != map[] && HasAllParties(votes)
    ensures r.Row? ==> WellFormedUrl(url) && HasAllParties(votes) && r.text == DataRow(url, votes)
  {
    if !WellFormedUrl(url) then Stop(MalformedUrl(url))
    else if votes == map[] then Broken(url)
    else if !HasAllParties(votes) then Stop(MissingParty(url, ORDER[FirstMissingFrom(votes, 0)]))
    else Row(DataRow(url, votes))
  }

  /** The outcomes of the first `n` pairs. */
  function Entries(urls: seq<string>, results: seq<map<string, string>>, n: nat): (es: seq<Outcome>)
    requires n <= |urls| && n <= |results|
    ensures |es| == n && forall i :: 0 <= i < n ==> es[i] == Entry(urls[i], results[i])
  {
    seq(n, i requires 0 <= i < n => Entry(urls[i], results[i]))
  }

  /** The rows written after the header, the broken URLs, and the error that stopped the loop. */
  datatype Written = Written(rows: seq<string>, broken: seq<string>, error: Option<WriteError>)

  function Min(a: nat, b: nat): (r: nat)
    ensures r <= a && r <= b && (r == a || r == b)
  {
    if a <= b then a else b
  }

  /**
   * What the loop has written after a run of outcomes: it stops at the first `Stop`, writing
   * at most one line per outcome, and reports the error of a `Stop` among them.
   */
  ghost function Tally(es: seq<Outcome>): (w: Written)
    ensures |w.rows| + |w.broken| <= |es|
    ensures w.error.Some? ==> Stop(w.error.value) in es
    decreases |es|
  {
    if |es| == 0 then Written([], [], None)
    else
      var w := Tally(es[..|es| - 1]);
      if w.error.Some? then w
      else match es[|es| - 1]
        case Stop(e) => Written(w.rows, w.broken, Some(e))
        case Broken(u) => Written(w.rows, w.broken + [u], None)
        case Row(text) => Written(w.rows + [text], w.broken, None)
  }

  /** Once the loop has stopped on an error, later outcomes add nothing. */
  lemma {:induction false} TallyStops(es: seq<Outcome>, i: nat)
    requires i <= |es|
    requires Tally(es[..i]).error.Some?
    ensures Tally(es) == Tally(es[..i])
    decreases |es| - i
  {
    if i < |es| {
      assert es[..|es| - 1][..i] == es[..i];
      TallyStops(es[..|es| - 1], i);
    } else {
      assert es[..i] == es;
    }
  }

  /**
   * The main-block loop: the header, then for each pair of `zip(urls, results)` the name is read
   * from the URL, an empty map sends the URL to the broken list, and any other map gives a row.
   */
  method WriteResults(urls: seq<string>, results: seq<map<string, string>>)
    returns (lines: seq<string>, broken: seq<string>, error: Option<WriteError>)
    ensures |lines| >= 1 && lines[0] == HeaderRow()
    ensures var w := Tally(Entries(urls, results, Min(|urls|, |results|)));
      lines[1..] == w.rows && broken == w.broken && error == w.error
  {
    var n := Min(|urls|, |results|);
    ghost var es := Entries(urls, results, n);
    lines := [HeaderRow()];
    broken := [];
    error := None;
    var i := 0;
    while i < n && error.None?
      invariant 0 <= i <= n
      invariant lines == [HeaderRow()] + Tally(es[..i]).rows
      invariant broken == Tally(es[..i]).broken
      invariant error == Tally(es[..i]).error
    {
      var u, r := urls[i], results[i];
      assert es[i] == Entry(u, r);
      if !WellFormedUrl(u) {
        error := Some(MalformedUrl(u));
        StepStop(es, i, error.value);
      } else {
        var (name, sprengel) := NameFromUrl(u);
        if r == map[] {
          StepBroken(es, i, u);
          broken := broken + [u];
        } else if !HasAllParties(r) {
          error := Some(MissingParty(u, ORDER[FirstMissingFrom(r, 0)]));
          StepStop(es, i, error.value);
        } else {
          var sortedResults := SortedResults(r);
          var row := RowTemplate([name + "-" + sprengel] + sortedResults);
          StepRow(es, i, row, HeaderRow());
          lines := lines + [row];
        }
      }
      i := i + 1;
    }
    if error.Some? {
      TallyStops(es, i);
    } else {
      assert es[..i] == es;
    }
  }

  /** A `Stop` read while the loop still runs reports its error and writes nothing. */
  lemma StepStop(es: seq<Outcome>, i: nat, e: WriteError)
    requires i < |es| && Tally(es[..i]).error.None? && es[i] == Stop(e)
    ensures Tally(es[..i + 1]) == Written(Tally(es[..i]).rows, Tally(es[..i]).broken, Some(e))
  {
    assert es[..i + 1][..i] == es[..i];
  }

  /** A broken URL read while the loop still runs is added to the broken list. */
  lemma StepBroken(es: seq<Outcome>, i: nat, u: string)
    requires i < |es| && Tally(es[..i]).error.None? && es[i] == Broken(u)
    ensures Tally(es[..i + 1]) == Written(Tally(es[..i]).rows, Tally(es[..i]).broken + [u], None)
  {
    assert es[..i + 1][..i] == es[..i];
  }

  /**
   * A row read while the loop still runs is written after the earlier rows, so the file that
   * starts with `header` gains it as its last line.
   */
  lemma StepRow(es: seq<Outcome>, i: nat, text: string, header: string)
    requires i < |es| && Tally(es[..i]).error.None? && es[i] == Row(text)
    ensures Tally(es[..i + 1]) == Written(Tally(es[..i]).rows + [text], Tally(es[..i]).broken, None)
    ensures [header] + Tally(es[..i + 1]).rows == [header] + Tally(es[..i]).rows + [text]
  {
    assert es[..i + 1][..i] == es[..i];
  }

  /** Every outcome is written, as a row or as a broken URL, exactly when none of them is a `Stop`. */
  lemma {:induction false} TallyCompletes(es: seq<Outcome>)
    ensures Tally(es).error.None? <==> forall i :: 0 <= i < |es| ==> !es[i].Stop?
    decreases |es|
  {
    if |es| > 0 {
      TallyCompletes(es[..|es| - 1]);
    }
  }

  /**
   * Each outcome before the stop is written once: rows plus broken URLs count the outcomes read,
   * which are all of them when none is a `Stop`, and otherwise those before the first `Stop`,
   * whose error is the one reported.
   */
  lemma {:induction false} TallyCounts(es: seq<Outcome>)
    ensures var w := Tally(es);
      && (w.error.None? ==> |w.rows| + |w.broken| == |es|)
      && (w.error.Some? ==> var m := |w.rows| + |w.broken|;
            m < |es| && es[m] == Stop(w.error.value) &&
            forall i :: 0 <= i < m ==> !es[i].Stop?)
    decreases |es|
  {
    if |es| > 0 {
      TallyCounts(es[..|es| - 1]);
      TallyCompletes(es[..|es| - 1]);
    }
  }

  /** `s` is strictly increasing. */
  ghost predicate Increasing(s: seq<nat>)
  {
    forall a, b :: 0 <= a < b < |s| ==> s[a] < s[b]
  }

  /**
   * Rows and broken URLs keep input order: row `k` is outcome `ri[k]` and broken URL `k` is
   * outcome `bi[k]`, both index lists are increasing, and together they cover every outcome read.
   */
  lemma {:induction false} TallyOrigins(es: seq<Outcome>) returns (ri: seq<nat>, bi: seq<nat>)
    ensures var w := Tally(es);
      && |ri| == |w.rows| && |bi| == |w.broken|
      && Increasing(ri) && Increasing(bi)
      && (forall k :: 0 <= k < |ri| ==> ri[k] < |es| && es[ri[k]] == Row(w.rows[k]))
      && (forall k :: 0 <= k < |bi| ==> bi[k] < |es| && es[bi[k]] == Broken(w.broken[k]))
      && (forall i :: 0 <= i < |ri| + |bi| ==> i in ri || i in bi)
    decreases |es|
  {
    if |es| == 0 {
      ri, bi := [], [];
    } else {
      var front := es[..|es| - 1];
      ri, bi := TallyOrigins(front);
      TallyCounts(front);
      var w := Tally(front);
      if w.error.None? {
        match es[|es| - 1]
        case Stop(e) =>
        case Broken(u) =>
          bi := bi + [|es| - 1];
        case Row(text) =>
          ri := ri + [|es| - 1];
      }
    }
  }

  /**
   * For the pairs of `zip(urls, results)`, when no pair stops the loop: every row is the data row
   * of a URL whose map is non-empty, every broken URL is one whose map is empty, both in input
   * order, and the rows and broken URLs together number `min(len(urls), len(results))`.
   */
  lemma WrittenPartition(urls: seq<string>, results: seq<map<string, string>>)
    returns (ri: seq<nat>, bi: seq<nat>)
    ensures var n := Min(|urls|, |results|); var w := Tally(Entries(urls, results, n));
      w.error.None? ==>
        && |w.rows| + |w.broken| == n
        && |ri| == |w.rows| && |bi| == |w.broken| && Increasing(ri) && Increasing(bi)
        && (forall k :: 0 <= k < |ri| ==>
              && ri[k] < n && results[ri[k]] != map[]
              && WellFormedUrl(urls[ri[k]]) && HasAllParties(results[ri[k]])
              && w.rows[k] == DataRow(urls[ri[k]], results[ri[k]]))
        && (forall k :: 0 <= k < |bi| ==> bi[k] < n && results[bi[k]] == map[] && w.broken[k] == urls[bi[k]])
        && (forall i :: 0 <= i < n ==> i in ri || i in bi)
  {
    var es := Entries(urls, results, Min(|urls|, |results|));
    TallyCounts(es);
    ri, bi := TallyOrigins(es);
  }

  /** The party columns are the extractor's default party catalog. */
  lemma OrderIsCatalog()
    ensures ORDER == Extractor.PARTIES
  {
  }

  /**
   * A vote map the extractor builds with its default catalog is either empty (a broken page) or
   * holds every party of `ORDER`, none of whose values holds a `,`; so no row ever stops the loop
   * with a `KeyError`, and its vote fields read back as written.
   */
  lemma ExtractedVotesFitRow(tables: seq<seq<string>>, upper: string -> string, votes: map<string, string>)
    requires Extractor.Extraction(tables, Extractor.PARTIES, Extractor.ALTERNATIVES, upper) == Success(votes)
    requires votes != map[]
    ensures HasAllParties(votes)
    ensures forall k :: 0 <= k < |ORDER| ==> ',' !in votes[ORDER[k]]
  {
    assert |tables| >= 2;
    Extractor.ExtractionNotEmpty(tables, Extractor.PARTIES, Extractor.ALTERNATIVES, upper);
    forall k | 0 <= k < |ORDER|
      ensures ',' !in votes[ORDER[k]]
    {
      Extractor.ExtractionValues(tables, Extractor.PARTIES, Extractor.ALTERNATIVES, upper, ORDER[k]);
    }
  }
}
