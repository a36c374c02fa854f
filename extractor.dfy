/**
 * The vote-table extraction heuristic of vote_crawler.py (`substringIndex`, `isSubstring`,
 * `votingTableExtractor`). The parsed page is given as its tables, each as the texts of its
 * `td` cells in document order; Python's `str.upper` is the parameter `upper`.
 */
module Extractor {
  import opened Wrappers
  import opened PyText

  /** The value recorded for a party that no stage finds. */
  const SENTINEL: string := "-"

  /** The default party catalog, in catalog order. */
  const PARTIES: seq<string> := ["ÖVP", "SPÖ", "FPÖ", "NEOS", "JETZT", "GRÜNE", "WANDL"]

  /** The default alternative spellings. */
  const ALTERNATIVES: map<string, string> :=
    map["GRÜNE" := "DIE GRÜNEN", "WANDL" := "WANDEL", "JETZT" := "JETZT - LISTE PILZ"]

  /** The one way extraction aborts: the matched label is the last cell, so `fullTable[i + 1]` raises. */
  datatype ExtractError = LabelIsLastCell(party: string)

  /** `isSubstring`: some string of `l` contains `sub`. */
  function IsSubstring(sub: string, l: seq<string>): (r: bool)
    ensures r <==> exists i :: 0 <= i < |l| && Contains(l[i], sub)
    decreases |l|
  {
    |l| > 0 && (Contains(l[0], sub) || IsSubstring(sub, l[1..]))
  }

  /** `substringIndex`: the first index of `l` whose string contains `sub`, `None` if there is none. */
  method SubstringIndex(sub: string, l: seq<string>) returns (r: Option<nat>)
    ensures r.Some? <==> IsSubstring(sub, l)
    ensures r.Some? ==> r.value < |l| && Contains(l[r.value], sub)
    ensures r.Some? ==> forall j :: 0 <= j < r.value ==> !Contains(l[j], sub)
  {
    for i := 0 to |l|
      invariant forall j :: 0 <= j < i ==> !Contains(l[j], sub)
    {
      if Contains(l[i], sub) {
        return Some(i);
      }
    }
    return None;
  }

  /** The first index of `l` whose string contains `sub`, for a list where there is one. */
  ghost function LeastContaining(sub: string, l: seq<string>): (r: nat)
    requires IsSubstring(sub, l)
    ensures r < |l| && Contains(l[r], sub)
    ensures forall j :: 0 <= j < r ==> !Contains(l[j], sub)
    decreases |l|
  {
    if Contains(l[0], sub) then 0 else 1 + LeastContaining(sub, l[1..])
  }

  /**
   * How well a cell matches party `p` as its label: 0 verbatim, 1 as the configured alternative,
   * 2 as containing `p`, 3 not at all.
   */
  function Rank(cell: string, p: string, alternatives: map<string, string>): nat
  {
    if cell == p then 0
    else if p in alternatives && cell == alternatives[p] then 1
    else if Contains(cell, p) then 2
    else 3
  }

  /** Cell `i` is a label of `p`, and no cell is a better-ranked one, nor an earlier one of the same rank. */
  ghost predicate IsBestLabel(cells: seq<string>, p: string, alternatives: map<string, string>, i: int)
  {
    && 0 <= i < |cells|
    && Rank(cells[i], p, alternatives) < 3
    && (forall j :: 0 <= j < |cells| ==> Rank(cells[i], p, alternatives) <= Rank(cells[j], p, alternatives))
    && (forall j :: 0 <= j < i ==> Rank(cells[i], p, alternatives) < Rank(cells[j], p, alternatives))
  }

  /** The label cell of `p` chosen by the three stages (exact, alternative, substring), first stage wins. */
  ghost function LabelIndex(p: string, cells: seq<string>, alternatives: map<string, string>): (r: Option<nat>)
    ensures r.Some? ==> r.value < |cells| && Rank(cells[r.value], p, alternatives) < 3
  {
    if p in cells then Some(IndexOf(cells, p))
    else if p in alternatives && alternatives[p] in cells then Some(IndexOf(cells, alternatives[p]))
    else if IsSubstring(p, cells) then Some(LeastContaining(p, cells))
    else None
  }

  /** The cell after label `i`; the `IndexError` of `fullTable[i + 1]` when there is none. */
  function AfterLabel(cells: seq<string>, i: nat, p: string): (r: Result<string, ExtractError>)
    requires i < |cells|
    ensures r.Success? <==> i + 1 < |cells|
    ensures r.Success? ==> r.value == cells[i + 1]
    ensures r.Failure? ==> r.error == LabelIsLastCell(p)
  {
    if i + 1 < |cells| then Success(cells[i + 1]) else Failure(LabelIsLastCell(p))
  }

  /**
   * What one iteration of the party loop records for `p`: the sentinel when no cell matches, and
   * otherwise the cell after the chosen label, or the `IndexError` when that label is the last cell.
   */
  ghost function PartyValue(p: string, cells: seq<string>, alternatives: map<string, string>): (r: Result<string, ExtractError>)
    ensures (forall i :: 0 <= i < |cells| ==> Rank(cells[i], p, alternatives) == 3) ==> r == Success(SENTINEL)
    ensures r.Failure? ==> r.error == LabelIsLastCell(p) && |cells| > 0 && Rank(cells[|cells| - 1], p, alternatives) < 3
  {
    LabelIndexIsBest(p, cells, alternatives);
    match LabelIndex(p, cells, alternatives)
    case None => Success(SENTINEL)
    case Some(i) => AfterLabel(cells, i, p)
  }

  /**
   * The party loop over `parties`, in order, given what one iteration records for a party: the
   * first party that raises aborts it, with that party's error.
   */
  ghost function PartyLoop(parties: seq<string>, value: string -> Result<string, ExtractError>): (r: Result<map<string, string>, ExtractError>)
    ensures r.Failure? ==> exists k :: 0 <= k < |parties| && value(parties[k]) == Failure(r.error)
    decreases |parties|
  {
    if parties == [] then Success(map[])
    else
      var p := parties[|parties| - 1];
      match PartyLoop(parties[..|parties| - 1], value)
      case Failure(e) => Failure(e)
      case Success(votes) =>
        match value(p)
        case Failure(e) => Failure(e)
        case Success(v) => Success(votes[p := v])
  }

  /** One iteration of the party loop on the cells `cells`. */
  ghost function ValueOf(cells: seq<string>, alternatives: map<string, string>): string -> Result<string, ExtractError>
  {
    p => PartyValue(p, cells, alternatives)
  }

  /** The party loop of `votingTableExtractor` over the cells `cells`. */
  ghost function ExtractFrom(cells: seq<string>, parties: seq<string>, alternatives: map<string, string>): (r: Result<map<string, string>, ExtractError>)
    ensures r.Failure? ==> r.error.party in parties
  {
    var r := PartyLoop(parties, ValueOf(cells, alternatives));
    if r.Failure? then
      PartyLoopRaises(parties, ValueOf(cells, alternatives), r.error);
      r
    else r
  }

  /** One cell as the extractor reads it: upper-cased, then every `,` replaced by `.`. */
  function NormalizeCell(cell: string, upper: string -> string): (r: string)
    ensures ',' !in r
  {
    ReplaceCharRemoves(upper(cell), ',', '.');
    ReplaceChar(upper(cell), ',', '.')
  }

  /** `fullTable`: the cells of a table, each normalised, in the same number and order. */
  function NormalizeTable(cells: seq<string>, upper: string -> string): (r: seq<string>)
    ensures |r| == |cells|
    ensures forall k :: 0 <= k < |r| ==> r[k] == NormalizeCell(cells[k], upper)
    ensures forall k :: 0 <= k < |r| ==> ',' !in r[k]
  {
    seq(|cells|, k requires 0 <= k < |cells| => NormalizeCell(cells[k], upper))
  }

  /**
   * What `votingTableExtractor` computes: nothing for a page with fewer than two tables, and
   * otherwise the party loop over the normalised cells of the second table.
   */
  ghost function Extraction(tables: seq<seq<string>>, parties: seq<string>, alternatives: map<string, string>, upper: string -> string): (r: Result<map<string, string>, ExtractError>)
    ensures |tables| < 2 ==> r == Success(map[])
    ensures r.Failure? ==> |tables| >= 2 && r.error.party in parties
  {
    if |tables| < 2 then Success(map[])
    else ExtractFrom(NormalizeTable(tables[1], upper), parties, alternatives)
  }

  /** `votingTableExtractor`, filling the result map party by party. */
  method VotingTableExtractor(tables: seq<seq<string>>, parties: seq<string>, alternatives: map<string, string>, upper: string -> string)
    returns (result: Result<map<string, string>, ExtractError>)
    ensures |tables| < 2 ==> result == Success(map[])
    ensures result == Extraction(tables, parties, alternatives, upper)
  {
    if |tables| < 2 {
      return Success(map[]);
    }
    var fullTable := NormalizeTable(tables[1], upper);
    var votes: map<string, string> := map[];
    for k := 0 to |parties|
      invariant ExtractFrom(fullTable, parties[..k], alternatives) == Success(votes)
    {
      var p := parties[k];
      assert parties[..k + 1][..k] == parties[..k];
      var found: Option<nat>;
      if p in fullTable {
        found := Some(IndexOf(fullTable, p));
      } else if p in alternatives && alternatives[p] in fullTable {
        found := Some(IndexOf(fullTable, alternatives[p]));
      } else if IsSubstring(p, fullTable) {
        found := SubstringIndex(p, fullTable);
      } else {
        found := None;
      }
      assert found == LabelIndex(p, fullTable, alternatives);
      match found
      case None =>
        votes := votes[p := SENTINEL];
      case Some(i) =>
        if i + 1 >= |fullTable| {
          PartyLoopAbortsAt(parties, ValueOf(fullTable, alternatives), k);
          return Failure(LabelIsLastCell(p));
        }
        votes := votes[p := fullTable[i + 1]];
    }
    assert parties[..|parties|] == parties;
    return Success(votes);
  }

  /**
   * The three stages choose the best-ranked label cell, the earliest among equally ranked ones;
   * there is none exactly when no cell matches `p` in any of the three ways.
   */
  lemma LabelIndexIsBest(p: string, cells: seq<string>, alternatives: map<string, string>)
    ensures LabelIndex(p, cells, alternatives).None? <==>
      forall i :: 0 <= i < |cells| ==> Rank(cells[i], p, alternatives) == 3
    ensures LabelIndex(p, cells, alternatives).Some? ==>
      IsBestLabel(cells, p, alternatives, LabelIndex(p, cells, alternatives).value)
  {
    if p in cells {
      var i := IndexOf(cells, p);
      assert forall j :: 0 <= j < i ==> Rank(cells[j], p, alternatives) > 0;
    } else if p in alternatives && alternatives[p] in cells {
      var i := IndexOf(cells, alternatives[p]);
      assert Rank(cells[i], p, alternatives) == 1;
      assert forall j :: 0 <= j < |cells| ==> Rank(cells[j], p, alternatives) >= 1;
      assert forall j :: 0 <= j < i ==> Rank(cells[j], p, alternatives) >= 2;
    } else if IsSubstring(p, cells) {
      var i := LeastContaining(p, cells);
      assert Rank(cells[i], p, alternatives) == 2;
      assert forall j :: 0 <= j < |cells| ==> Rank(cells[j], p, alternatives) >= 2;
    }
  }

  /** There is at most one best label. */
  lemma BestLabelUnique(cells: seq<string>, p: string, alternatives: map<string, string>, i: int, j: int)
    requires IsBestLabel(cells, p, alternatives, i)
    requires IsBestLabel(cells, p, alternatives, j)
    ensures i == j
  {
  }

  /**
   * A party that occurs verbatim takes the cell after its first verbatim occurrence, whatever the
   * alternatives say, even when its alternative spelling occurs too.
   */
  lemma ExactMatchWins(p: string, cells: seq<string>, alternatives: map<string, string>, i: nat)
    requires i < |cells| && cells[i] == p
    requires forall j :: 0 <= j < i ==> cells[j] != p
    ensures PartyValue(p, cells, alternatives) == PartyValue(p, cells, map[])
    ensures PartyValue(p, cells, alternatives) == AfterLabel(cells, i, p)
  {
  }

  /**
   * The alternative spelling is consulted only for a party absent verbatim; then its first
   * verbatim occurrence is the label, even when an earlier cell contains the party's name.
   */
  lemma AlternativeStage(p: string, cells: seq<string>, alternatives: map<string, string>, i: nat)
    requires p !in cells && p in alternatives
    requires i < |cells| && cells[i] == alternatives[p]
    requires forall j :: 0 <= j < i ==> cells[j] != alternatives[p]
    ensures PartyValue(p, cells, alternatives) == AfterLabel(cells, i, p)
  {
  }

  /**
   * The substring stage is reached only when the other two fail; its label is the first cell
   * that contains the party's name.
   */
  lemma SubstringStage(p: string, cells: seq<string>, alternatives: map<string, string>, i: nat)
    requires p !in cells && (p in alternatives ==> alternatives[p] !in cells)
    requires i < |cells| && Contains(cells[i], p)
    requires forall j :: 0 <= j < i ==> !Contains(cells[j], p)
    ensures PartyValue(p, cells, alternatives) == AfterLabel(cells, i, p)
  {
    var k := LeastContaining(p, cells);
    assert !(k < i) && !(i < k);
  }

  /** Once a prefix of the party loop has raised, the whole loop raises the same error. */
  lemma {:induction false} PartyLoopAbortsAt(parties: seq<string>, value: string -> Result<string, ExtractError>, k: nat)
    requires k < |parties|
    requires PartyLoop(parties[..k], value).Success?
    requires value(parties[k]).Failure?
    ensures PartyLoop(parties, value) == Failure(value(parties[k]).error)
    decreases |parties|
  {
    if k + 1 == |parties| {
      assert parties[..|parties| - 1] == parties[..k];
    } else {
      var front := parties[..|parties| - 1];
      assert front[..k] == parties[..k];
      PartyLoopAbortsAt(front, value, k);
    }
  }

  /** A successful party loop holds exactly one key per party, holding that party's value. */
  lemma {:induction false} PartyLoopKeys(parties: seq<string>, value: string -> Result<string, ExtractError>, votes: map<string, string>)
    requires PartyLoop(parties, value) == Success(votes)
    ensures forall p :: p in votes <==> p in parties
    ensures forall p :: p in parties ==> value(p) == Success(votes[p])
    decreases |parties|
  {
    if parties != [] {
      var n := |parties| - 1;
      var front := parties[..n];
      var last := parties[n];
      var before := PartyLoop(front, value).value;
      PartyLoopKeys(front, value, before);
      assert votes == before[last := value(last).value];
      assert parties == front + [last];
      assert forall q :: q in parties <==> q in front || q == last;
    }
  }

  /** The party loop succeeds exactly when no party raises. */
  lemma {:induction false} PartyLoopSucceeds(parties: seq<string>, value: string -> Result<string, ExtractError>)
    ensures PartyLoop(parties, value).Success? <==>
      forall k :: 0 <= k < |parties| ==> value(parties[k]).Success?
    decreases |parties|
  {
    if parties != [] {
      var n := |parties| - 1;
      var front := parties[..n];
      PartyLoopSucceeds(front, value);
      assert forall k :: 0 <= k < n ==> front[k] == parties[k];
    }
  }

  /** When the party loop raises, it is with the error of the first party that raises. */
  lemma {:induction false} PartyLoopRaises(parties: seq<string>, value: string -> Result<string, ExtractError>, e: ExtractError)
    requires PartyLoop(parties, value) == Failure(e)
    ensures exists k :: (0 <= k < |parties| && value(parties[k]) == Failure(e) &&
      forall j :: 0 <= j < k ==> value(parties[j]).Success?)
    decreases |parties|
  {
    var n := |parties| - 1;
    var front := parties[..n];
    assert forall k :: 0 <= k < n ==> front[k] == parties[k];
    if PartyLoop(front, value).Failure? {
      PartyLoopRaises(front, value, e);
      var k :| 0 <= k < |front| && value(front[k]) == Failure(e) &&
        forall j :: 0 <= j < k ==> value(front[j]).Success?;
      assert value(parties[k]) == Failure(e);
    } else {
      PartyLoopSucceeds(front, value);
      assert value(parties[n]) == Failure(e);
    }
  }

  /**
   * With two tables or more, each party gets a value from the second table: the sentinel when no
   * cell matches it, and otherwise the cell right after a cell that matches it. No value holds a `,`.
   */
  lemma ExtractionValues(tables: seq<seq<string>>, parties: seq<string>, alternatives: map<string, string>, upper: string -> string, p: string)
    requires |tables| >= 2
    requires Extraction(tables, parties, alternatives, upper).Success?
    requires p in parties
    ensures var cells := NormalizeTable(tables[1], upper);
      var votes := Extraction(tables, parties, alternatives, upper).value;
      && (forall q :: q in votes <==> q in parties)
      && p in votes
      && ',' !in votes[p]
      && ((forall i :: 0 <= i < |cells| ==> Rank(cells[i], p, alternatives) == 3) ==> votes[p] == SENTINEL)
      && ((exists i :: 0 <= i < |cells| && Rank(cells[i], p, alternatives) < 3) ==>
          exists i :: 1 <= i < |cells| && votes[p] == cells[i] && IsBestLabel(cells, p, alternatives, i - 1))
  {
    var cells := NormalizeTable(tables[1], upper);
    var value := ValueOf(cells, alternatives);
    assert Extraction(tables, parties, alternatives, upper) == PartyLoop(parties, value);
    var votes := PartyLoop(parties, value).value;
    PartyLoopKeys(parties, value, votes);
    assert PartyValue(p, cells, alternatives) == Success(votes[p]);
    PartyValueMeaning(p, cells, alternatives);
  }

  /** An iteration raises exactly when the party's best label is the last cell. */
  lemma PartyValueRaises(p: string, cells: seq<string>, alternatives: map<string, string>)
    ensures PartyValue(p, cells, alternatives).Failure? <==>
      |cells| > 0 && IsBestLabel(cells, p, alternatives, |cells| - 1)
  {
    LabelIndexIsBest(p, cells, alternatives);
    if |cells| > 0 && IsBestLabel(cells, p, alternatives, |cells| - 1) {
      BestLabelUnique(cells, p, alternatives, LabelIndex(p, cells, alternatives).value, |cells| - 1);
    }
  }

  /**
   * A party value that does not raise is the sentinel when no cell matches the party, and
   * otherwise the cell right after the best label; it holds no `,` when no cell does.
   */
  lemma PartyValueMeaning(p: string, cells: seq<string>, alternatives: map<string, string>)
    requires PartyValue(p, cells, alternatives).Success?
    ensures var v := PartyValue(p, cells, alternatives).value;
      && ((forall i :: 0 <= i < |cells| ==> Rank(cells[i], p, alternatives) == 3) ==> v == SENTINEL)
      && ((exists i :: 0 <= i < |cells| && Rank(cells[i], p, alternatives) < 3) ==>
          exists i :: 1 <= i < |cells| && v == cells[i] && IsBestLabel(cells, p, alternatives, i - 1))
      && ((forall k :: 0 <= k < |cells| ==> ',' !in cells[k]) ==> ',' !in v)
  {
    LabelIndexIsBest(p, cells, alternatives);
    match LabelIndex(p, cells, alternatives)
    case None =>
    case Some(i) =>
      assert PartyValue(p, cells, alternatives).value == cells[i + 1];
      assert IsBestLabel(cells, p, alternatives, (i + 1) - 1);
  }

  /** Past the two-table check a non-empty catalog never yields the empty map. */
  lemma ExtractionNotEmpty(tables: seq<seq<string>>, parties: seq<string>, alternatives: map<string, string>, upper: string -> string)
    requires |tables| >= 2 && |parties| > 0
    requires Extraction(tables, parties, alternatives, upper).Success?
    ensures Extraction(tables, parties, alternatives, upper).value != map[]
    ensures forall k :: 0 <= k < |parties| ==> parties[k] in Extraction(tables, parties, alternatives, upper).value
  {
    var votes := Extraction(tables, parties, alternatives, upper).value;
    PartyLoopKeys(parties, ValueOf(NormalizeTable(tables[1], upper), alternatives), votes);
    assert parties[0] in parties;
  }

  /**
   * A normalised cell is upper case, that is a fixed point of `upper`, for any upper-casing that is
   * idempotent and commutes with the comma replacement.
   */
  lemma NormalizedCellIsUpper(cell: string, upper: string -> string)
    requires forall s :: upper(upper(s)) == upper(s)
    requires forall s :: upper(ReplaceChar(s, ',', '.')) == ReplaceChar(upper(s), ',', '.')
    ensures upper(NormalizeCell(cell, upper)) == NormalizeCell(cell, upper)
  {
    assert upper(ReplaceChar(upper(cell), ',', '.')) == ReplaceChar(upper(upper(cell)), ',', '.');
  }

  /** Under the same assumptions, normalising a normalised cell changes nothing. */
  lemma NormalizeCellIdempotent(cell: string, upper: string -> string)
    requires forall s :: upper(upper(s)) == upper(s)
    requires forall s :: upper(ReplaceChar(s, ',', '.')) == ReplaceChar(upper(s), ',', '.')
    ensures NormalizeCell(NormalizeCell(cell, upper), upper) == NormalizeCell(cell, upper)
  {
    NormalizedCellIsUpper(cell, upper);
    ReplaceCharIdempotent(upper(cell), ',', '.');
  }

  /** An upper-casing for examples whose cells are upper case already. */
  function KeepCase(s: string): string
  {
    s
  }

  /** A decimal comma becomes a decimal point. */
  lemma DecimalCommaExample()
    ensures NormalizeCell("12,5", KeepCase) == "12.5"
  {
  }

  /** Cells without a comma that are upper case already are read unchanged. */
  lemma NormalizeKeepsPlainCells(cells: seq<string>)
    requires forall k :: 0 <= k < |cells| ==> ',' !in cells[k]
    ensures NormalizeTable(cells, KeepCase) == cells
  {
    forall k | 0 <= k < |cells|
      ensures NormalizeCell(cells[k], KeepCase) == cells[k]
    {
      ReplaceCharAbsent(cells[k], ',', '.');
    }
  }

  /** A page whose second table is `ÖVP 100 SPÖ 50`, read for the catalog `ÖVP, SPÖ`. */
  lemma TwoPartyExample(tables: seq<seq<string>>, parties: seq<string>)
    requires tables == [[], ["ÖVP", "100", "SPÖ", "50"]] && parties == ["ÖVP", "SPÖ"]
    ensures Extraction(tables, parties, map[], KeepCase) == Success(map["ÖVP" := "100", "SPÖ" := "50"])
  {
    var cells := tables[1];
    assert ExtractFrom(cells, parties, map[]).Success? by {
      PartyValuesOfTwoPartyExample(cells);
      PartyLoopSucceeds(parties, ValueOf(cells, map[]));
    }
    var votes := ExtractFrom(cells, parties, map[]).value;
    assert votes.Keys == {"ÖVP", "SPÖ"} && votes["ÖVP"] == "100" && votes["SPÖ"] == "50" by {
      PartyValuesOfTwoPartyExample(cells);
      PartyLoopKeys(parties, ValueOf(cells, map[]), votes);
      assert "ÖVP" in parties && "SPÖ" in parties;
    }
    assert votes == map["ÖVP" := "100", "SPÖ" := "50"];
    NormalizeKeepsPlainCells(cells);
  }

  /** The party values behind TwoPartyExample. */
  lemma PartyValuesOfTwoPartyExample(cells: seq<string>)
    requires cells == ["ÖVP", "100", "SPÖ", "50"]
    ensures PartyValue("ÖVP", cells, map[]) == Success("100")
    ensures PartyValue("SPÖ", cells, map[]) == Success("50")
  {
    assert IndexOf(cells, "ÖVP") == 0;
    assert cells[0] != "SPÖ" && cells[1] != "SPÖ";
    assert IndexOf(cells, "SPÖ") == 2;
  }

  /** A party name suffixed with a list name is found by the substring stage. */
  lemma SubstringExample(tables: seq<seq<string>>, parties: seq<string>)
    requires tables == [[], ["ÖVP LISTE KURZ", "77"]] && parties == ["ÖVP"]
    ensures Extraction(tables, parties, map[], KeepCase) == Success(map["ÖVP" := "77"])
  {
    var cells := tables[1];
    assert PartyValue("ÖVP", cells, map[]) == Success("77") by {
      assert cells[0] != "ÖVP" && cells[1] != "ÖVP";
      assert OccursAt(cells[0], "ÖVP", 0);
      SubstringStage("ÖVP", cells, map[], 0);
    }
    assert ExtractFrom(cells, parties, map[]).Success? by {
      PartyLoopSucceeds(parties, ValueOf(cells, map[]));
    }
    var votes := ExtractFrom(cells, parties, map[]).value;
    assert votes.Keys == {"ÖVP"} && votes["ÖVP"] == "77" by {
      PartyLoopKeys(parties, ValueOf(cells, map[]), votes);
      assert "ÖVP" in parties;
    }
    assert votes == map["ÖVP" := "77"];
    NormalizeKeepsPlainCells(cells);
  }

  /** A page with a single table yields the empty map. */
  lemma OneTableExample()
    ensures Extraction([["ÖVP", "100"]], PARTIES, ALTERNATIVES, KeepCase) == Success(map[])
  {
  }
}
