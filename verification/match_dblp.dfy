/**
  The name resolver of match_dblp.py: for every roster row without a DBLP id it
  tries, first match wins, the exact name -> id table, the disambiguation page
  of an ambiguous name, and a live author search; the candidates found are then
  reduced to one (a single candidate, a unique affiliation match, or the choice
  typed at the terminal), and a row that has an id but lacks a name or
  affiliations is completed from the author record.

  The DBLP service calls and `input()` are parameters (`Services`); a call that
  raised, or returned nothing, is `None`.
*/
module MatchDblp {
  import opened Wrappers
  import opened Text
  import opened CsvRows
  import opened Seqs

  /** The three columns the resolver writes. */
  const DblpColumns: set<string> := {"dblp_id", "dblp_name", "dblp_affiliations"}

  const NoneListed: string := "[None Listed]"

  /** `'; '.join(affs) or '[None Listed]'`: never an empty cell. */
  function FormatAffiliations(affs: seq<string>): (r: string)
    ensures r != ""
  {
    var joined := Join("; ", affs);
    if joined == "" then NoneListed else joined
  }

  /** The placeholder appears exactly for an empty list, or a list of one empty affiliation. */
  lemma FormatAffiliationsPlaceholder(affs: seq<string>)
    ensures affs == [] || affs == [""] ==> FormatAffiliations(affs) == NoneListed
    ensures affs != [] && affs != [""] ==>
              FormatAffiliations(affs) == Join("; ", affs)
              && forall i :: 0 <= i < |affs| ==> Contains(FormatAffiliations(affs), affs[i])
  {
    JoinEmpty("; ", affs);
    forall i | 0 <= i < |affs| {
      JoinContainsEach("; ", affs, i);
    }
  }

  /** `r` differs from `row` at most in the three DBLP columns. */
  ghost predicate OnlyDblpColumnsChanged(row: Row, r: Row) {
    r - DblpColumns == row - DblpColumns
  }

  /** Lines 94-96: a candidate's id, name and formatted affiliations go into the row. */
  function WriteCandidate(row: Row, c: Candidate): Row {
    row["dblp_id" := c.docno]["dblp_name" := c.author]["dblp_affiliations" := FormatAffiliations(c.affiliations)]
  }

  /**
    The test of line 98: some affiliation of the candidate contains the row's
    affiliation, both lowered. A missing affiliation reads as the empty string.
  */
  predicate AffiliationMatch(rowAffiliation: string, c: Candidate) {
    exists i :: 0 <= i < |c.affiliations| && Contains(Lower(c.affiliations[i]), Lower(rowAffiliation))
  }

  /**
    The comparison is case-insensitive on both sides: row affiliations that
    agree once lowered, against candidates whose affiliations agree once
    lowered, give the same answer.
  */
  lemma AffiliationMatchIgnoresCase(x: string, y: string, c1: Candidate, c2: Candidate)
    requires Lower(x) == Lower(y)
    requires |c1.affiliations| == |c2.affiliations|
    requires forall i :: 0 <= i < |c1.affiliations| ==> Lower(c1.affiliations[i]) == Lower(c2.affiliations[i])
    ensures AffiliationMatch(x, c1) == AffiliationMatch(y, c2)
  {
    if AffiliationMatch(x, c1) {
      var i :| 0 <= i < |c1.affiliations| && Contains(Lower(c1.affiliations[i]), Lower(x));
      assert Contains(Lower(c2.affiliations[i]), Lower(y));
    }
    if AffiliationMatch(y, c2) {
      var i :| 0 <= i < |c2.affiliations| && Contains(Lower(c2.affiliations[i]), Lower(y));
      assert Contains(Lower(c1.affiliations[i]), Lower(x));
    }
  }

  /** In particular, lowering the row's affiliation first changes nothing. */
  lemma AffiliationMatchLowered(rowAffiliation: string, c: Candidate)
    ensures AffiliationMatch(Lower(rowAffiliation), c) == AffiliationMatch(rowAffiliation, c)
  {
    LowerIdempotent(rowAffiliation);
    AffiliationMatchIgnoresCase(Lower(rowAffiliation), rowAffiliation, c, c);
  }

  /** An empty row affiliation matches exactly the candidates with at least one affiliation. */
  lemma EmptyAffiliationMatchesAny(c: Candidate)
    ensures AffiliationMatch("", c) <==> |c.affiliations| > 0
  {
    if |c.affiliations| > 0 {
      ContainsEmpty(Lower(c.affiliations[0]));
    }
  }

  /** `matches[mask]` for the mask of line 98: the candidates that pass, in their order. */
  function AffiliationMatches(cands: seq<Candidate>, rowAffiliation: string): (r: seq<Candidate>)
    ensures |r| <= |cands|
    ensures forall c :: c in r ==> c in cands && AffiliationMatch(rowAffiliation, c)
    ensures forall c :: c in cands && AffiliationMatch(rowAffiliation, c) ==> c in r
    decreases |cands|
  {
    if cands == [] then []
    else (if AffiliationMatch(rowAffiliation, cands[0]) then [cands[0]] else [])
         + AffiliationMatches(cands[1..], rowAffiliation)
  }

  /** When exactly the candidate at position `k` passes, the filter yields it alone. */
  lemma {:induction false} AffiliationMatchesSingle(cands: seq<Candidate>, rowAffiliation: string, k: nat)
    requires k < |cands| && AffiliationMatch(rowAffiliation, cands[k])
    requires forall j :: 0 <= j < |cands| && j != k ==> !AffiliationMatch(rowAffiliation, cands[j])
    ensures AffiliationMatches(cands, rowAffiliation) == [cands[k]]
    decreases |cands|
  {
    if k == 0 {
      AffiliationMatchesNone(cands[1..], rowAffiliation);
    } else {
      AffiliationMatchesSingle(cands[1..], rowAffiliation, k - 1);
    }
  }

  /** When no candidate passes, the filter is empty. */
  lemma {:induction false} AffiliationMatchesNone(cands: seq<Candidate>, rowAffiliation: string)
    requires forall j :: 0 <= j < |cands| ==> !AffiliationMatch(rowAffiliation, cands[j])
    ensures AffiliationMatches(cands, rowAffiliation) == []
    decreases |cands|
  {
    if cands != [] {
      AffiliationMatchesNone(cands[1..], rowAffiliation);
    }
  }

  /** When two positions pass, the filter keeps at least two rows. */
  lemma {:induction false} AffiliationMatchesTwo(cands: seq<Candidate>, rowAffiliation: string, i: nat, j: nat)
    requires i < j < |cands|
    requires AffiliationMatch(rowAffiliation, cands[i]) && AffiliationMatch(rowAffiliation, cands[j])
    ensures |AffiliationMatches(cands, rowAffiliation)| >= 2
    decreases |cands|
  {
    if i == 0 {
      assert cands[j] == cands[1..][j - 1];
      assert cands[j] in AffiliationMatches(cands[1..], rowAffiliation);
    } else {
      AffiliationMatchesTwo(cands[1..], rowAffiliation, i - 1, j - 1);
    }
  }

  /** `matches[matches['docno'] == selected]`, first row: the first candidate with that id. */
  function FirstWithDocno(cands: seq<Candidate>, id: string): (r: Option<Candidate>)
    ensures r.Some? <==> exists i :: 0 <= i < |cands| && cands[i].docno == id
    ensures r.Some? ==> r.value in cands && r.value.docno == id
    ensures r.Some? ==> exists i :: 0 <= i < |cands| && cands[i] == r.value
                                    && forall j :: 0 <= j < i ==> cands[j].docno != id
    decreases |cands|
  {
    if cands == [] then None
    else if cands[0].docno == id then Some(cands[0])
    else FirstWithDocno(cands[1..], id)
  }

  /** What `choose_dblp_from_candidates` does with the row. */
  datatype Decision =
    | Keep                 // nothing written
    | Take(c: Candidate)   // the candidate's id, name and affiliations written
    | Enter(id: string)    // a typed id that no candidate has; name and affiliations cleared
    | Invalid              // a typed index that is not an integer or out of range

  /** Lines 86-131: the candidate reduction and the handling of the typed choice. */
  function Decide(row: Row, matches: Option<seq<Candidate>>, interactive: bool, input: string): (d: Decision)
    ensures d.Take? ==> matches.Some? && d.c in matches.value
    ensures d.Enter? ==> interactive && d.id == Strip(input) && '/' in d.id
    ensures (d.Enter? || d.Invalid?) ==> matches.Some? && |matches.value| > 1
  {
    if matches.None? || |matches.value| == 0 then Keep
    else
      var m := matches.value;
      if |m| == 1 then Take(m[0])
      else
        var affiliationMatches := AffiliationMatches(m, Get(row, "affiliation"));
        if |affiliationMatches| == 1 then Take(affiliationMatches[0])
        else if !interactive then Keep
        else Typed(m, input)
  }

  /** Lines 112-131: the answer typed at the terminal, among several candidates. */
  function Typed(m: seq<Candidate>, input: string): (d: Decision)
    ensures d.Take? ==> d.c in m
    ensures d.Enter? ==> d.id == Strip(input) && '/' in d.id
  {
    var selected := Strip(input);
    if selected == "" then Keep
    else if '/' in selected then ById(m, selected)
    else ByIndex(m, selected)
  }

  /** Lines 116-123: an answer with '/' is an id, taken with its candidate if one has it. */
  function ById(m: seq<Candidate>, selected: string): (d: Decision)
    ensures d == Enter(selected) || (d.Take? && d.c in m && d.c.docno == selected)
  {
    match FirstWithDocno(m, selected)
    case Some(c) => Take(c)
    case None => Enter(selected)
  }

  /** Lines 124-131: any other answer is an index into the candidates, counted from the end when negative. */
  function ByIndex(m: seq<Candidate>, selected: string): (d: Decision)
    ensures d == Invalid || (d.Take? && d.c in m)
    ensures d == Invalid <==> ParseInt(selected).None? || Position(|m|, ParseInt(selected).value).None?
    ensures ParseInt(selected).Some? && Position(|m|, ParseInt(selected).value).Some? ==>
              d == Take(m[Position(|m|, ParseInt(selected).value).value])
  {
    match ParseInt(selected)
    case None => Invalid
    case Some(k) =>
      match Position(|m|, k)
      case Some(j) => Take(m[j])
      case None => Invalid
  }

  /** The row after a decision; an invalid selection leaves it as it was. */
  function Apply(row: Row, d: Decision): (r: Row)
    ensures OnlyDblpColumnsChanged(row, r)
  {
    match d
    case Keep => row
    case Invalid => row
    case Take(c) => WriteCandidate(row, c)
    case Enter(id) => row["dblp_id" := id]["dblp_name" := ""]["dblp_affiliations" := ""]
  }

  /**
    `choose_dblp_from_candidates` AS WRITTEN: after an invalid selection it prints
    "Invalid selection, skipping." and then reads `record['docno']` from the loop
    variable of line 107, a namedtuple, which raises TypeError.
  */
  function ChooseAsWritten(row: Row, matches: Option<seq<Candidate>>, interactive: bool, input: string)
    : Result<Row, string>
  {
    var d := Decide(row, matches, interactive, input);
    if d.Invalid? then Failure("TypeError") else Success(Apply(row, d))
  }

  /**
    `choose_dblp_from_candidates` as intended: an invalid selection skips the row.
    Only the three DBLP columns change; no candidates leave the row as it was; a
    single candidate is taken; anything written is a candidate's or the typed id.
  */
  function Choose(row: Row, matches: Option<seq<Candidate>>, interactive: bool, input: string): (r: Row)
    ensures OnlyDblpColumnsChanged(row, r)
    ensures matches.None? || matches == Some([]) ==> r == row
    ensures matches.Some? && |matches.value| == 1 ==> r == WriteCandidate(row, matches.value[0])
  {
    Apply(row, Decide(row, matches, interactive, input))
  }

  /**
    Whatever `choose_dblp_from_candidates` writes is one of the candidates, or
    the id typed at the terminal (with name and affiliations cleared).
  */
  lemma ChooseWritesCandidateOrInput(row: Row, matches: Option<seq<Candidate>>, interactive: bool, input: string)
    ensures var r := Choose(row, matches, interactive, input);
            || r == row
            || (matches.Some? && exists i :: 0 <= i < |matches.value| && r == WriteCandidate(row, matches.value[i]))
            || (interactive && '/' in Strip(input)
                && r == row["dblp_id" := Strip(input)]["dblp_name" := ""]["dblp_affiliations" := ""])
  {
    var d := Decide(row, matches, interactive, input);
    if d.Take? {
      var i :| 0 <= i < |matches.value| && matches.value[i] == d.c;
    }
  }

  /** Where the as-written function does not raise, it agrees with the corrected one. */
  lemma ChooseAsWrittenAgrees(row: Row, matches: Option<seq<Candidate>>, interactive: bool, input: string)
    ensures ChooseAsWritten(row, matches, interactive, input).Success? ==>
              ChooseAsWritten(row, matches, interactive, input).value == Choose(row, matches, interactive, input)
    ensures ChooseAsWritten(row, matches, interactive, input).Failure? <==>
              Decide(row, matches, interactive, input) == Invalid
  {
  }

  /**
    The discrepancy: several candidates and no unique affiliation match, in
    interactive mode, and an answer that is neither an id nor an index in range
    (say "7" for two candidates, or "x"). The code raises; the intended outcome
    is a skip that leaves the row as it was.
  */
  lemma InvalidSelectionRaises(row: Row, m: seq<Candidate>, input: string)
    requires |m| > 1 && |AffiliationMatches(m, Get(row, "affiliation"))| != 1
    requires Strip(input) != "" && '/' !in Strip(input)
    requires ParseInt(Strip(input)).None? || Position(|m|, ParseInt(Strip(input)).value).None?
    ensures ChooseAsWritten(row, Some(m), true, input).Failure?
    ensures Choose(row, Some(m), true, input) == row
  {
    assert Decide(row, Some(m), true, input) == Invalid;
    ChooseAsWrittenAgrees(row, Some(m), true, input);
  }

  /**
    Several candidates of which exactly the one at position `k` passes the
    affiliation test: it is taken, interactive or not.
  */
  lemma UniqueAffiliationTaken(row: Row, m: seq<Candidate>, interactive: bool, input: string, k: nat)
    requires |m| > 1 && k < |m|
    requires AffiliationMatch(Get(row, "affiliation"), m[k])
    requires forall j :: 0 <= j < |m| && j != k ==> !AffiliationMatch(Get(row, "affiliation"), m[j])
    ensures Choose(row, Some(m), interactive, input) == WriteCandidate(row, m[k])
  {
    AffiliationMatchesSingle(m, Get(row, "affiliation"), k);
  }

  /**
    Several candidates, none or at least two of which pass the affiliation test:
    outside interactive mode the row is left as it was.
  */
  lemma AmbiguousUnchanged(row: Row, m: seq<Candidate>, input: string)
    requires |m| > 1
    requires (forall j :: 0 <= j < |m| ==> !AffiliationMatch(Get(row, "affiliation"), m[j]))
             || (exists i, j :: 0 <= i < j < |m| && AffiliationMatch(Get(row, "affiliation"), m[i])
                                              && AffiliationMatch(Get(row, "affiliation"), m[j]))
    ensures Choose(row, Some(m), false, input) == row
  {
    var aff := Get(row, "affiliation");
    if exists i, j :: 0 <= i < j < |m| && AffiliationMatch(aff, m[i]) && AffiliationMatch(aff, m[j]) {
      var i, j :| 0 <= i < j < |m| && AffiliationMatch(aff, m[i]) && AffiliationMatch(aff, m[j]);
      AffiliationMatchesTwo(m, aff, i, j);
    } else {
      AffiliationMatchesNone(m, aff);
    }
    NoUniqueMatchKeeps(row, m, input);
  }

  /** Several candidates and no unique affiliation match: outside interactive mode nothing is written. */
  lemma NoUniqueMatchKeeps(row: Row, m: seq<Candidate>, input: string)
    requires |m| > 1 && |AffiliationMatches(m, Get(row, "affiliation"))| != 1
    ensures Choose(row, Some(m), false, input) == row
  {
    assert Decide(row, Some(m), false, input) == Keep;
  }

  /**
    Interactive mode with no unique affiliation match: a blank answer skips; an
    answer with '/' is stored as the id, with the name and affiliations of the
    candidate that has it, or both cleared when none has; any other answer that
    is a valid index takes that candidate, and an invalid one skips.
  */
  lemma TypedChoice(row: Row, m: seq<Candidate>, input: string)
    requires |m| > 1 && |AffiliationMatches(m, Get(row, "affiliation"))| != 1
    ensures Strip(input) == "" ==> Choose(row, Some(m), true, input) == row
    ensures '/' in Strip(input) ==> Choose(row, Some(m), true, input)["dblp_id"] == Strip(input)
    ensures '/' in Strip(input) && FirstWithDocno(m, Strip(input)).Some? ==>
              Choose(row, Some(m), true, input) == WriteCandidate(row, FirstWithDocno(m, Strip(input)).value)
    ensures '/' in Strip(input) && (forall i :: 0 <= i < |m| ==> m[i].docno != Strip(input)) ==>
              Choose(row, Some(m), true, input)["dblp_name"] == ""
              && Choose(row, Some(m), true, input)["dblp_affiliations"] == ""
    ensures Strip(input) != "" && '/' !in Strip(input) && ParseInt(Strip(input)).Some?
            && Position(|m|, ParseInt(Strip(input)).value).Some? ==>
              Choose(row, Some(m), true, input)
              == WriteCandidate(row, m[Position(|m|, ParseInt(Strip(input)).value).value])
    ensures Strip(input) != "" && '/' !in Strip(input)
            && (ParseInt(Strip(input)).None? || Position(|m|, ParseInt(Strip(input)).value).None?) ==>
              Choose(row, Some(m), true, input) == row
  {
    var selected := Strip(input);
    var d := Decide(row, Some(m), true, input);
    if '/' in selected {
      assert selected != "";
      match FirstWithDocno(m, selected)
      case Some(c) =>
        assert d == Take(c);
      case None =>
        assert d == Enter(selected);
    } else if selected != "" {
      assert d == ByIndex(m, selected);
    }
  }

  /** A record of the author service: a name and, perhaps, a list of affiliations. */
  datatype AuthorRecord = AuthorRecord(name: string, affiliations: Option<seq<string>>)

  /**
    What the outside world answers while one row is processed:
    `dblp.load_disambiguation`, the author search, `dblp.load_author`, and the
    line typed at the terminal. A call that raised is `None`.
  */
  datatype Services = Services(
    loadDisambiguation: string -> Option<seq<Candidate>>,
    search: string -> Option<seq<Candidate>>,
    loadAuthor: string -> Option<AuthorRecord>,
    input: string)

  /** The row after an exact name match (lines 42-44). */
  function ExactMatch(row: Row, name: string, id: string): Row {
    row["dblp_id" := id]["dblp_name" := name]["dblp_affiliations" := ""]
  }

  /**
    Lines 46-63: the candidates handed to the reduction when there is no exact
    match: those of the disambiguation page when the name is listed there and the
    page yields some, otherwise the search's.
  */
  function CandidatesFor(name: string, disambiguation2id: map<string, string>, svc: Services)
    : Option<seq<Candidate>>
  {
    var page := if name in disambiguation2id then svc.loadDisambiguation(disambiguation2id[name]) else None;
    if page.Some? && |page.value| > 0 then page else svc.search(name)
  }

  /**
    Lines 38-63: the resolution chain, first match wins. A row that already has
    an id is not touched; otherwise only the three DBLP columns change.
  */
  function Resolve(row: Row, author2id: map<string, string>, disambiguation2id: map<string, string>,
                   svc: Services, interactive: bool): (r: Row)
    ensures Filled(row, "dblp_id") ==> r == row
    ensures OnlyDblpColumnsChanged(row, r)
  {
    if Filled(row, "dblp_id") then row
    else
      var name := FullName(row);
      if name in author2id then ExactMatch(row, name, author2id[name])
      else Choose(row, CandidatesFor(name, disambiguation2id, svc), interactive, svc.input)
  }

  /**
    Lines 64-75: a row with an id but no name or no affiliations is completed
    from the author record. The id is never changed and a filled cell is never
    overwritten.
  */
  function CompleteFromRecord(row: Row, svc: Services): (r: Row)
    ensures OnlyDblpColumnsChanged(row, r)
    ensures Get(r, "dblp_id") == Get(row, "dblp_id")
    ensures forall k :: k in DblpColumns && Filled(row, k) ==> k in r && r[k] == row[k]
  {
    if Filled(row, "dblp_id") && (!Filled(row, "dblp_name") || !Filled(row, "dblp_affiliations")) then
      match svc.loadAuthor(row["dblp_id"])
      case None => row
      case Some(record) =>
        var named := if Filled(row, "dblp_name") then row else row["dblp_name" := record.name];
        if Filled(named, "dblp_affiliations") then named
        else named["dblp_affiliations" := FormatAffiliations(record.affiliations.GetOr([]))]
    else
      row
  }

  /**
    What lines 66-75 write: a failed load leaves the row as it was; a loaded
    record fills an empty name with the record's name and empty affiliations
    with its formatted affiliations.
  */
  lemma CompleteFromRecordWrites(row: Row, svc: Services)
    requires Filled(row, "dblp_id")
    ensures svc.loadAuthor(row["dblp_id"]).None? ==> CompleteFromRecord(row, svc) == row
    ensures svc.loadAuthor(row["dblp_id"]).Some? && !Filled(row, "dblp_name") ==>
              "dblp_name" in CompleteFromRecord(row, svc)
              && CompleteFromRecord(row, svc)["dblp_name"] == svc.loadAuthor(row["dblp_id"]).value.name
    ensures svc.loadAuthor(row["dblp_id"]).Some? && !Filled(row, "dblp_affiliations") ==>
              "dblp_affiliations" in CompleteFromRecord(row, svc)
              && CompleteFromRecord(row, svc)["dblp_affiliations"]
                 == FormatAffiliations(svc.loadAuthor(row["dblp_id"]).value.affiliations.GetOr([]))
  {
  }

  /** One iteration of the loop of lines 36-76, as intended. */
  function ProcessRow(row: Row, author2id: map<string, string>, disambiguation2id: map<string, string>,
                      svc: Services, interactive: bool): (r: Row)
    ensures OnlyDblpColumnsChanged(row, r)
    ensures Filled(row, "dblp_id") ==> Get(r, "dblp_id") == Get(row, "dblp_id")
  {
    CompleteFromRecord(Resolve(row, author2id, disambiguation2id, svc, interactive), svc)
  }

  /**
    An exact name match writes the table's id and the name, consults neither the
    disambiguation page nor the search nor the terminal, and always leads to the
    author record being loaded (the affiliations were set to '').
  */
  lemma ExactMatchFirst(row: Row, author2id: map<string, string>, disambiguation2id: map<string, string>,
                        svc1: Services, svc2: Services, interactive: bool)
    requires !Filled(row, "dblp_id") && FullName(row) in author2id
    ensures var r := Resolve(row, author2id, disambiguation2id, svc1, interactive);
            && r == Resolve(row, author2id, disambiguation2id, svc2, interactive)
            && r["dblp_id"] == author2id[FullName(row)]
            && r["dblp_name"] == FullName(row)
            && !Filled(r, "dblp_affiliations")
  {
    var name := FullName(row);
    assert Resolve(row, author2id, disambiguation2id, svc1, interactive) == ExactMatch(row, name, author2id[name]);
    assert Resolve(row, author2id, disambiguation2id, svc2, interactive) == ExactMatch(row, name, author2id[name]);
  }

  /** Without an id and an exact match, the row goes to the candidate reduction. */
  lemma ResolveByCandidates(row: Row, author2id: map<string, string>, disambiguation2id: map<string, string>,
                            svc: Services, interactive: bool)
    requires !Filled(row, "dblp_id") && FullName(row) !in author2id
    ensures Resolve(row, author2id, disambiguation2id, svc, interactive)
            == Choose(row, CandidatesFor(FullName(row), disambiguation2id, svc), interactive, svc.input)
  {
  }

  /** Without an exact match, the search answers when the disambiguation step yields no candidates. */
  lemma SearchAsFallback(row: Row, author2id: map<string, string>, disambiguation2id: map<string, string>,
                         svc: Services, interactive: bool)
    requires !Filled(row, "dblp_id") && FullName(row) !in author2id
    requires var name := FullName(row);
             name !in disambiguation2id || svc.loadDisambiguation(disambiguation2id[name]) in {None, Some([])}
    ensures Resolve(row, author2id, disambiguation2id, svc, interactive)
            == Choose(row, svc.search(FullName(row)), interactive, svc.input)
  {
    ResolveByCandidates(row, author2id, disambiguation2id, svc, interactive);
  }

  /**
    Without an exact match, when the disambiguation page yields candidates, the
    search's answer does not matter.
  */
  lemma SearchOnlyAsFallback(row: Row, author2id: map<string, string>, disambiguation2id: map<string, string>,
                             svc: Services, search: string -> Option<seq<Candidate>>, interactive: bool)
    requires !Filled(row, "dblp_id") && FullName(row) !in author2id
    requires var name := FullName(row);
             name in disambiguation2id && svc.loadDisambiguation(disambiguation2id[name]) !in {None, Some([])}
    ensures Resolve(row, author2id, disambiguation2id, svc, interactive)
            == Resolve(row, author2id, disambiguation2id, svc.(search := search), interactive)
  {
    ResolveByCandidates(row, author2id, disambiguation2id, svc, interactive);
    ResolveByCandidates(row, author2id, disambiguation2id, svc.(search := search), interactive);
    assert CandidatesFor(FullName(row), disambiguation2id, svc)
           == CandidatesFor(FullName(row), disambiguation2id, svc.(search := search));
  }

  /**
    `update_csv_with_dblp` AS WRITTEN for one row, with `nameBound` saying whether
    `name` was assigned by an earlier row. It raises TypeError on an invalid
    selection, and UnboundLocalError when the record is loaded for a row that
    already had an id before any row has assigned `name` (the log line 65 reads it).
  */
  function ProcessRowAsWritten(row: Row, author2id: map<string, string>, disambiguation2id: map<string, string>,
                               svc: Services, interactive: bool, nameBound: bool): Result<Row, string>
  {
    var resolved :=
      if Filled(row, "dblp_id") then Success(row)
      else
        var name := FullName(row);
        if name in author2id then Success(ExactMatch(row, name, author2id[name]))
        else ChooseAsWritten(row, CandidatesFor(name, disambiguation2id, svc), interactive, svc.input);
    match resolved
    case Failure(e) => Failure(e)
    case Success(r) =>
      var loads := Filled(r, "dblp_id") && (!Filled(r, "dblp_name") || !Filled(r, "dblp_affiliations"));
      if loads && !nameBound && Filled(row, "dblp_id") then Failure("UnboundLocalError")
      else Success(CompleteFromRecord(r, svc))
  }

  /** The loop of lines 36-76 as written: the first exception aborts the whole run. */
  function UpdateRowsAsWritten(rows: seq<Row>, author2id: map<string, string>, disambiguation2id: map<string, string>,
                               services: seq<Services>, interactive: bool, nameBound: bool): Result<seq<Row>, string>
    requires |services| == |rows|
    decreases |rows|
  {
    if rows == [] then Success([])
    else
      match ProcessRowAsWritten(rows[0], author2id, disambiguation2id, services[0], interactive, nameBound)
      case Failure(e) => Failure(e)
      case Success(r) =>
        match UpdateRowsAsWritten(rows[1..], author2id, disambiguation2id, services[1..], interactive,
                                  nameBound || !Filled(rows[0], "dblp_id"))
        case Failure(e) => Failure(e)
        case Success(rest) => Success([r] + rest)
  }

  /** For one row: where the code as written gets through, it computes the corrected row. */
  lemma ProcessRowAsWrittenAgrees(row: Row, author2id: map<string, string>, disambiguation2id: map<string, string>,
                                  svc: Services, interactive: bool, nameBound: bool)
    ensures var out := ProcessRowAsWritten(row, author2id, disambiguation2id, svc, interactive, nameBound);
            out.Success? ==> out.value == ProcessRow(row, author2id, disambiguation2id, svc, interactive)
  {
    if !Filled(row, "dblp_id") && FullName(row) !in author2id {
      ChooseAsWrittenAgrees(row, CandidatesFor(FullName(row), disambiguation2id, svc), interactive, svc.input);
    }
  }

  /** A run as written gets through exactly when its first row and the rest do. */
  lemma UpdateRowsAsWrittenCons(rows: seq<Row>, author2id: map<string, string>, disambiguation2id: map<string, string>,
                                services: seq<Services>, interactive: bool, nameBound: bool)
    requires |services| == |rows| && rows != []
    ensures var out := UpdateRowsAsWritten(rows, author2id, disambiguation2id, services, interactive, nameBound);
            var first := ProcessRowAsWritten(rows[0], author2id, disambiguation2id, services[0], interactive, nameBound);
            var rest := UpdateRowsAsWritten(rows[1..], author2id, disambiguation2id, services[1..], interactive,
                                            nameBound || !Filled(rows[0], "dblp_id"));
            && (out.Success? <==> first.Success? && rest.Success?)
            && (out.Success? ==> out.value == [first.value] + rest.value)
  {
  }

  /** Each row passed through `f` with its own services, in order. */
  function MapRows<S>(rows: seq<Row>, services: seq<S>, f: (Row, S) -> Row): seq<Row>
    requires |services| == |rows|
    decreases |rows|
  {
    if rows == [] then [] else [f(rows[0], services[0])] + MapRows(rows[1..], services[1..], f)
  }

  lemma {:induction false} MapRowsElements<S>(rows: seq<Row>, services: seq<S>, f: (Row, S) -> Row)
    requires |services| == |rows|
    ensures |MapRows(rows, services, f)| == |rows|
    ensures forall i :: 0 <= i < |rows| ==> MapRows(rows, services, f)[i] == f(rows[i], services[i])
    decreases |rows|
  {
    if rows != [] {
      MapRowsElements(rows[1..], services[1..], f);
      forall i | 0 < i < |rows| ensures MapRows(rows, services, f)[i] == f(rows[i], services[i]) {
        assert rows[i] == rows[1..][i - 1] && services[i] == services[1..][i - 1];
      }
    }
  }

  lemma {:induction false} MapRowsAppend<S>(rows: seq<Row>, services: seq<S>, f: (Row, S) -> Row, row: Row, svc: S)
    requires |services| == |rows|
    ensures MapRows(rows + [row], services + [svc], f) == MapRows(rows, services, f) + [f(row, svc)]
    decreases |rows|
  {
    if rows != [] {
      assert (rows + [row])[1..] == rows[1..] + [row];
      assert (services + [svc])[1..] == services[1..] + [svc];
      MapRowsAppend(rows[1..], services[1..], f, row, svc);
    }
  }

  /** The corrected loop of lines 36-76, row by row. */
  function ProcessRows(rows: seq<Row>, author2id: map<string, string>, disambiguation2id: map<string, string>,
                       services: seq<Services>, interactive: bool): seq<Row>
    requires |services| == |rows|
  {
    MapRows(rows, services, (row: Row, svc: Services) => ProcessRow(row, author2id, disambiguation2id, svc, interactive))
  }

  /** Processing one more row appends its processed row. */
  lemma ProcessRowsAppend(rows: seq<Row>, author2id: map<string, string>, disambiguation2id: map<string, string>,
                          services: seq<Services>, interactive: bool, row: Row, svc: Services)
    requires |services| == |rows|
    ensures ProcessRows(rows + [row], author2id, disambiguation2id, services + [svc], interactive)
            == ProcessRows(rows, author2id, disambiguation2id, services, interactive)
               + [ProcessRow(row, author2id, disambiguation2id, svc, interactive)]
  {
    MapRowsAppend(rows, services,
                  (row: Row, svc: Services) => ProcessRow(row, author2id, disambiguation2id, svc, interactive),
                  row, svc);
  }

  /** The first `i + 1` rows processed are the first `i` processed and row `i` processed. */
  lemma ProcessRowsStep(rows: seq<Row>, author2id: map<string, string>, disambiguation2id: map<string, string>,
                        services: seq<Services>, interactive: bool, i: nat, done: seq<Row>, next: Row)
    requires |services| == |rows| && i < |rows|
    requires done == ProcessRows(rows[..i], author2id, disambiguation2id, services[..i], interactive)
    requires next == ProcessRow(rows[i], author2id, disambiguation2id, services[i], interactive)
    ensures done + [next] == ProcessRows(rows[..i + 1], author2id, disambiguation2id, services[..i + 1], interactive)
  {
    TakeOneMore(rows, i);
    TakeOneMore(services, i);
    ProcessRowsAppend(rows[..i], author2id, disambiguation2id, services[..i], interactive, rows[i], services[i]);
  }

  /** Row `i` of the corrected loop's output is row `i` of the input, processed with its own services. */
  lemma ProcessRowsElements(rows: seq<Row>, author2id: map<string, string>, disambiguation2id: map<string, string>,
                            services: seq<Services>, interactive: bool)
    requires |services| == |rows|
    ensures var out := ProcessRows(rows, author2id, disambiguation2id, services, interactive);
            && |out| == |rows|
            && forall i :: 0 <= i < |rows| ==>
                 out[i] == ProcessRow(rows[i], author2id, disambiguation2id, services[i], interactive)
  {
    MapRowsElements(rows, services,
                    (row: Row, svc: Services) => ProcessRow(row, author2id, disambiguation2id, svc, interactive));
  }

  /** Where the code as written gets through, it computes what the corrected loop does. */
  lemma {:induction false} UpdateRowsAsWrittenAgrees(rows: seq<Row>, author2id: map<string, string>,
                                                    disambiguation2id: map<string, string>,
                                                    services: seq<Services>, interactive: bool, nameBound: bool)
    requires |services| == |rows|
    ensures var out := UpdateRowsAsWritten(rows, author2id, disambiguation2id, services, interactive, nameBound);
            out.Success? ==> out.value == ProcessRows(rows, author2id, disambiguation2id, services, interactive)
    decreases |rows|
  {
    if rows != [] {
      var bound' := nameBound || !Filled(rows[0], "dblp_id");
      UpdateRowsAsWrittenAgrees(rows[1..], author2id, disambiguation2id, services[1..], interactive, bound');
      ProcessRowAsWrittenAgrees(rows[0], author2id, disambiguation2id, services[0], interactive, nameBound);
      UpdateRowsAsWrittenCons(rows, author2id, disambiguation2id, services, interactive, nameBound);
    }
  }

  /**
    The discrepancy: a roster whose first row already has an id but no name.
    The code raises UnboundLocalError; the intended outcome completes the row
    from the author record.
  */
  lemma FirstPreResolvedRowRaises(svc: Services)
    requires svc.loadAuthor("1/1") == Some(AuthorRecord("J. Lee", None))
    ensures var rows: seq<Row> := [map["dblp_id" := "1/1"]];
            UpdateRowsAsWritten(rows, map[], map[], [svc], false, false).Failure?
            && ProcessRow(rows[0], map[], map[], svc, false)
               == map["dblp_id" := "1/1", "dblp_name" := "J. Lee", "dblp_affiliations" := NoneListed]
  {
    var row: Row := map["dblp_id" := "1/1"];
    assert Filled(row, "dblp_id") && !Filled(row, "dblp_name");
    assert Join("; ", []) == "";
  }

  /** `choose_dblp_from_candidates`, updating the row in place as intended. */
  method ChooseDblpFromCandidates(row: CsvRow, matches: Option<seq<Candidate>>, interactive: bool, input: string)
    modifies row
    ensures row.fields == Choose(old(row.fields), matches, interactive, input)
  {
    var fields := row.fields;
    if matches.None? {
      return;
    }
    var m := matches.value;
    if |m| == 0 {
      return;
    } else if |m| == 1 {
      row.fields := WriteCandidate(fields, m[0]);
      return;
    }
    var affiliationMatches := AffiliationMatches(m, Get(fields, "affiliation"));
    if |affiliationMatches| == 1 {
      fields := WriteCandidate(fields, affiliationMatches[0]);
    } else if interactive {
      fields := ReadSelection(fields, m, input);
    }
    row.fields := fields;
  }

  /** Lines 112-131 on the row's cells: the typed id or index picks the candidate. */
  method ReadSelection(fields: Row, m: seq<Candidate>, input: string) returns (r: Row)
    ensures r == Apply(fields, Typed(m, input))
  {
    var selected := Strip(input);
    if selected == "" {
      r := fields;
    } else if '/' in selected {
      r := SelectById(fields, m, selected);
    } else {
      r := SelectByIndex(fields, m, selected);
    }
  }

  /** Lines 116-123 on the row's cells. */
  method SelectById(fields: Row, m: seq<Candidate>, selected: string) returns (r: Row)
    ensures r == Apply(fields, ById(m, selected))
  {
    r := fields["dblp_id" := selected];
    var record := FirstWithDocno(m, selected);
    if record.Some? {
      r := r["dblp_name" := record.value.author];
      r := r["dblp_affiliations" := FormatAffiliations(record.value.affiliations)];
    } else {
      r := r["dblp_name" := ""];
      r := r["dblp_affiliations" := ""];
    }
  }

  /** Lines 124-131 on the row's cells; an invalid index leaves them as they were. */
  method SelectByIndex(fields: Row, m: seq<Candidate>, selected: string) returns (r: Row)
    ensures r == Apply(fields, ByIndex(m, selected))
  {
    r := fields;
    var index := ParseInt(selected);
    if index.Some? {
      var position := Position(|m|, index.value);
      if position.Some? {
        r := WriteCandidate(r, m[position.value]);
      }
    }
  }

  /** One iteration of the loop of lines 36-76 on the row in place. */
  method ProcessRowInPlace(row: CsvRow, author2id: map<string, string>, disambiguation2id: map<string, string>,
                           svc: Services, interactive: bool)
    modifies row
    ensures row.fields == ProcessRow(old(row.fields), author2id, disambiguation2id, svc, interactive)
  {
    ResolveInPlace(row, author2id, disambiguation2id, svc, interactive);
    CompleteInPlace(row, svc);
  }

  /** Lines 38-63 on the row in place: the resolution chain. */
  method ResolveInPlace(row: CsvRow, author2id: map<string, string>, disambiguation2id: map<string, string>,
                        svc: Services, interactive: bool)
    modifies row
    ensures row.fields == Resolve(old(row.fields), author2id, disambiguation2id, svc, interactive)
  {
    if !Filled(row.fields, "dblp_id") {
      var name := FullName(row.fields);
      if name in author2id {
        row.fields := row.fields["dblp_id" := author2id[name]];
        row.fields := row.fields["dblp_name" := name];
        row.fields := row.fields["dblp_affiliations" := ""];
      } else {
        var matches: Option<seq<Candidate>> := None;
        if name in disambiguation2id {
          matches := svc.loadDisambiguation(disambiguation2id[name]);
        }
        if matches.Some? && |matches.value| > 0 {
          ChooseDblpFromCandidates(row, matches, interactive, svc.input);
        } else {
          matches := svc.search(name);
          ChooseDblpFromCandidates(row, matches, interactive, svc.input);
        }
      }
    }
  }

  /** Lines 64-75 on the row in place: completion from the author record. */
  method CompleteInPlace(row: CsvRow, svc: Services)
    modifies row
    ensures row.fields == CompleteFromRecord(old(row.fields), svc)
  {
    if Filled(row.fields, "dblp_id") && (!Filled(row.fields, "dblp_name") || !Filled(row.fields, "dblp_affiliations")) {
      var record := svc.loadAuthor(row.fields["dblp_id"]);
      if record.Some? {
        if !Filled(row.fields, "dblp_name") {
          row.fields := row.fields["dblp_name" := record.value.name];
        }
        if !Filled(row.fields, "dblp_affiliations") {
          row.fields := row.fields["dblp_affiliations" := FormatAffiliations(record.value.affiliations.GetOr([]))];
        }
      }
    }
  }

  /** Lines 28-33: each DBLP column the header lacks is appended, in this order. */
  method AddDblpColumns(fieldnames: seq<string>) returns (outFields: seq<string>)
    ensures outFields == EnsureColumn(EnsureColumn(EnsureColumn(fieldnames, "dblp_id"), "dblp_name"),
                                      "dblp_affiliations")
  {
    outFields := fieldnames;
    if "dblp_id" !in outFields {
      outFields := outFields + ["dblp_id"];
    }
    if "dblp_name" !in outFields {
      outFields := outFields + ["dblp_name"];
    }
    if "dblp_affiliations" !in outFields {
      outFields := outFields + ["dblp_affiliations"];
    }
  }

  /**
    `update_csv_with_dblp` as intended: the header gains each DBLP column it
    lacks, and every input row comes out, in order, resolved and completed.
    `services[i]` answers the calls made for row `i`.
  */
  method UpdateCsvWithDblp(fieldnames: seq<string>, rows: seq<Row>, author2id: map<string, string>,
                           disambiguation2id: map<string, string>, services: seq<Services>, interactive: bool)
    returns (outFields: seq<string>, outRows: seq<Row>)
    requires |services| == |rows|
    ensures outFields == EnsureColumn(EnsureColumn(EnsureColumn(fieldnames, "dblp_id"), "dblp_name"),
                                      "dblp_affiliations")
    ensures outRows == ProcessRows(rows, author2id, disambiguation2id, services, interactive)
  {
    outFields := AddDblpColumns(fieldnames);
    outRows := [];
    var i := 0;
    while i < |rows|
      invariant 0 <= i <= |rows|
      invariant outRows == ProcessRows(rows[..i], author2id, disambiguation2id, services[..i], interactive)
    {
      var fields := ProcessOneRow(rows[i], author2id, disambiguation2id, services[i], interactive);
      ProcessRowsStep(rows, author2id, disambiguation2id, services, interactive, i, outRows, fields);
      outRows := outRows + [fields];
      i := i + 1;
    }
    TakeAll(rows);
    TakeAll(services);
  }

  /** One row of the loop: a fresh row dictionary, updated in place and read back. */
  method ProcessOneRow(fields: Row, author2id: map<string, string>, disambiguation2id: map<string, string>,
                       svc: Services, interactive: bool)
    returns (r: Row)
    ensures r == ProcessRow(fields, author2id, disambiguation2id, svc, interactive)
  {
    var row := new CsvRow(fields);
    ProcessRowInPlace(row, author2id, disambiguation2id, svc, interactive);
    r := row.fields;
  }
}
