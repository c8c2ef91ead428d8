/**
  The earlier resolver of easychair_match_authors.py: for every EasyChair author
  row without a `dblp` cell it tries the exact name -> id table and then a live
  author search; one result is taken, several are left alone unless the user
  types an id or an index at the terminal.

  The search and `input()` are parameters (`Services`). Unlike match_dblp.py,
  nothing here catches a failing search, and an index out of range is not
  caught either (only ValueError is): both abort the whole run, which the model
  returns as a `Failure`.
*/
module EasychairMatchAuthors {
  import opened Wrappers
  import opened Text
  import opened CsvRows
  import opened Seqs

  /** What the outside world answers for one row: the author search (`None` when it raised) and the typed line. */
  datatype Services = Services(search: string -> Option<seq<Candidate>>, input: string)

  /** `r` differs from `row` at most in the `dblp` column. */
  ghost predicate OnlyDblpChanged(row: Row, r: Row) {
    forall k :: k != "dblp" ==> (k in r <==> k in row) && (k in row ==> r[k] == row[k])
  }

  /**
    Lines 39-47: the typed answer among several results. `Success(None)` leaves
    the cell alone (blank answer, or not an integer: the ValueError is caught),
    `Success(Some(id))` is the id to write, and an index outside the results
    raises IndexError, which nothing catches.
  */
  function Typed(m: seq<Candidate>, input: string): (r: Result<Option<string>, string>)
    ensures r.Failure? ==> ParseInt(Strip(input)).Some? && '/' !in Strip(input)
    ensures r.Success? && r.value.Some? ==>
              (r.value.value == Strip(input) && '/' in Strip(input))
              || (exists j :: 0 <= j < |m| && r.value.value == m[j].docno)
  {
    var selected := Strip(input);
    if selected == "" then Success(None)
    else if '/' in selected then Success(Some(selected))
    else
      match ParseInt(selected)
      case None => Success(None)
      case Some(k) =>
        match Position(|m|, k)
        case None => Failure("IndexError")
        case Some(j) => Success(Some(m[j].docno))
  }

  /**
    Lines 24-52 for one row. A row with a `dblp` cell is left as it was; only the
    `dblp` cell is ever written; the only errors are a failing search and an
    index out of range, and both happen only after the exact table missed.
  */
  function MatchRow(row: Row, author2id: map<string, string>, svc: Services, interactive: bool)
    : (r: Result<Row, string>)
    ensures Filled(row, "dblp") ==> r == Success(row)
    ensures r.Success? ==> OnlyDblpChanged(row, r.value)
    ensures r.Failure? ==> !Filled(row, "dblp") && FullName(row) !in author2id
  {
    if Filled(row, "dblp") then Success(row)
    else
      var name := FullName(row);
      if name in author2id then Success(row["dblp" := author2id[name]])
      else
        match svc.search(name)
        case None => Failure("search failed")
        case Some(m) =>
          if |m| == 1 then Success(row["dblp" := m[0].docno])
          else if |m| > 1 && interactive then
            match Typed(m, svc.input)
            case Failure(e) => Failure(e)
            case Success(None) => Success(row)
            case Success(Some(id)) => Success(row["dblp" := id])
          else Success(row)
  }

  /**
    Whatever is written into an empty `dblp` cell comes from the exact table,
    from a search result, or is the id typed at the terminal.
  */
  lemma WrittenIdHasASource(row: Row, author2id: map<string, string>, svc: Services, interactive: bool)
    requires !Filled(row, "dblp")
    ensures var r := MatchRow(row, author2id, svc, interactive);
            r.Success? && Filled(r.value, "dblp") ==>
              var id := r.value["dblp"];
              || (FullName(row) in author2id && id == author2id[FullName(row)])
              || (svc.search(FullName(row)).Some?
                  && exists j :: 0 <= j < |svc.search(FullName(row)).value|
                                 && id == svc.search(FullName(row)).value[j].docno)
              || (interactive && id == Strip(svc.input) && '/' in id)
  {
    var name := FullName(row);
    if name !in author2id && svc.search(name).Some? {
      var m := svc.search(name).value;
      if |m| == 1 {
        assert m[0].docno == m[0].docno;
      }
    }
  }

  /** An exact name hit writes the table's id and does not depend on the search or the terminal. */
  lemma ExactHitNoSearch(row: Row, author2id: map<string, string>, svc1: Services, svc2: Services,
                         interactive: bool)
    requires !Filled(row, "dblp") && FullName(row) in author2id
    ensures MatchRow(row, author2id, svc1, interactive) == MatchRow(row, author2id, svc2, interactive)
    ensures MatchRow(row, author2id, svc1, interactive) == Success(row["dblp" := author2id[FullName(row)]])
  {
  }

  /**
    Without an exact hit, the search decides: one result is taken, none leaves
    the row as it was, and several leave it as it was outside interactive mode.
  */
  lemma SearchOutcome(row: Row, author2id: map<string, string>, svc: Services, interactive: bool)
    requires !Filled(row, "dblp") && FullName(row) !in author2id
    ensures var r := MatchRow(row, author2id, svc, interactive);
            var m := svc.search(FullName(row));
            && (m.None? ==> r.Failure?)
            && (m.Some? && |m.value| == 1 ==> r == Success(row["dblp" := m.value[0].docno]))
            && (m.Some? && |m.value| == 0 ==> r == Success(row))
            && (m.Some? && |m.value| > 1 && !interactive ==> r == Success(row))
  {
  }

  /**
    The typed answer: a blank answer or one that is not an integer skips, an
    answer with '/' is taken as it stands, an index in range (a negative one
    counted from the end) picks that result's id, and an index out of range is
    an error.
  */
  lemma TypedCases(m: seq<Candidate>, input: string)
    ensures var selected := Strip(input);
            var r := Typed(m, input);
            && (selected == "" ==> r == Success(None))
            && ('/' in selected ==> r == Success(Some(selected)))
            && (selected != "" && '/' !in selected && ParseInt(selected).None? ==> r == Success(None))
            && (selected != "" && '/' !in selected && ParseInt(selected).Some? ==>
                  var k := ParseInt(selected).value;
                  && (0 <= k < |m| ==> r == Success(Some(m[k].docno)))
                  && (-|m| <= k < 0 ==> r == Success(Some(m[k + |m|].docno)))
                  && (k < -|m| || |m| <= k ==> r.Failure?))
  {
    var selected := Strip(input);
    if selected != "" && '/' !in selected && ParseInt(selected).Some? {
      var k := ParseInt(selected).value;
      var p := Position(|m|, k);
      assert (0 <= k < |m| ==> p == Some(k)) && (-|m| <= k < 0 ==> p == Some(k + |m|));
    }
  }

  /**
    Interactive mode with several results: the typed answer decides. A skip
    leaves the row as it was, an id is written, an error aborts.
  */
  lemma TypedOutcome(row: Row, author2id: map<string, string>, svc: Services)
    requires !Filled(row, "dblp") && FullName(row) !in author2id
    requires svc.search(FullName(row)).Some? && |svc.search(FullName(row)).value| > 1
    ensures var r := MatchRow(row, author2id, svc, true);
            match Typed(svc.search(FullName(row)).value, svc.input)
            case Failure(e) => r == Failure(e)
            case Success(None) => r == Success(row)
            case Success(Some(id)) => r == Success(row["dblp" := id])
  {
    var name := FullName(row);
    var m := svc.search(name).value;
    assert svc.search(name) == Some(m);
    assert !(|m| == 1);
  }

  /**
    Lines 24-52 on the row in place. On success the row holds what `MatchRow`
    says; on an error it is left as it was and the error is returned.
  */
  method MatchRowInPlace(row: CsvRow, author2id: map<string, string>, svc: Services, interactive: bool)
    returns (error: Option<string>)
    modifies row
    ensures var r := MatchRow(old(row.fields), author2id, svc, interactive);
            && (r.Success? ==> error.None? && row.fields == r.value)
            && (r.Failure? ==> error == Some(r.error) && row.fields == old(row.fields))
  {
    error := None;
    var fields := row.fields;
    if !Filled(fields, "dblp") {
      var name := FullName(fields);
      if name in author2id {
        fields := fields["dblp" := author2id[name]];
      } else {
        var matches := svc.search(name);
        if matches.None? {
          error := Some("search failed");
        } else if |matches.value| == 1 {
          fields := fields["dblp" := matches.value[0].docno];
        } else if |matches.value| > 1 && interactive {
          var choice := Typed(matches.value, svc.input);
          if choice.Failure? {
            error := Some(choice.error);
          } else if choice.value.Some? {
            fields := fields["dblp" := choice.value.value];
          }
        }
      }
    }
    row.fields := fields;
  }

  /** One iteration of the loop of lines 22-53: the row dictionary is read, updated in place and kept. */
  method MatchOneRow(fields: Row, author2id: map<string, string>, svc: Services, interactive: bool)
    returns (out: Row, error: Option<string>)
    ensures var r := MatchRow(fields, author2id, svc, interactive);
            && (r.Success? ==> error.None? && out == r.value)
            && (r.Failure? ==> error == Some(r.error))
  {
    var row := new CsvRow(fields);
    error := MatchRowInPlace(row, author2id, svc, interactive);
    out := row.fields;
  }

  /** Lines 18-19: the header gains `dblp` when it lacks it. */
  method AddDblpColumn(fieldnames: seq<string>) returns (outFields: seq<string>)
    ensures outFields == EnsureColumn(fieldnames, "dblp")
  {
    outFields := fieldnames;
    if "dblp" !in outFields {
      outFields := outFields + ["dblp"];
    }
  }

  /** What happens to each row in turn; `services[i]` answers for row `i`. */
  function Outcomes(rows: seq<Row>, author2id: map<string, string>, services: seq<Services>, interactive: bool)
    : seq<Result<Row, string>>
    requires |services| == |rows|
  {
    seq(|rows|, i requires 0 <= i < |rows| => MatchRow(rows[i], author2id, services[i], interactive))
  }

  /**
    The loop of lines 22-53 over the rows: every row's outcome, in order; the
    first row that fails aborts the run with its error.
  */
  function Collect(outcomes: seq<Result<Row, string>>): Result<seq<Row>, string>
    decreases |outcomes|
  {
    if outcomes == [] then Success([])
    else
      var n := |outcomes| - 1;
      match Collect(outcomes[..n])
      case Failure(e) => Failure(e)
      case Success(done) =>
        match outcomes[n]
        case Failure(e) => Failure(e)
        case Success(r) => Success(done + [r])
  }

  /**
    The run goes through exactly when every row does, and then holds every row's
    result in order; otherwise its error is that of the first row that fails.
  */
  lemma {:induction false} CollectSpec(outcomes: seq<Result<Row, string>>)
    ensures var out := Collect(outcomes);
            && (out.Success? <==> forall i :: 0 <= i < |outcomes| ==> outcomes[i].Success?)
            && (out.Success? ==>
                  |out.value| == |outcomes| && forall i :: 0 <= i < |outcomes| ==> out.value[i] == outcomes[i].value)
            && (out.Failure? ==>
                  exists i :: 0 <= i < |outcomes| && outcomes[i] == Failure(out.error)
                              && forall j :: 0 <= j < i ==> outcomes[j].Success?)
    decreases |outcomes|
  {
    if outcomes != [] {
      var n := |outcomes| - 1;
      var init := outcomes[..n];
      CollectSpec(init);
      assert forall i :: 0 <= i < n ==> init[i] == outcomes[i];
      var prefix := Collect(init);
      if prefix.Failure? {
        var i :| 0 <= i < n && init[i] == Failure(prefix.error) && forall j :: 0 <= j < i ==> init[j].Success?;
        assert outcomes[i].Failure?;
      }
    }
  }

  /** Outcome `i` is the match of row `i` with the service answers of that row. */
  lemma OutcomeAt(rows: seq<Row>, author2id: map<string, string>, services: seq<Services>, interactive: bool, i: nat)
    requires |services| == |rows| && i < |rows|
    ensures |Outcomes(rows, author2id, services, interactive)| == |rows|
    ensures Outcomes(rows, author2id, services, interactive)[i] == MatchRow(rows[i], author2id, services[i], interactive)
  {
  }

  /** One more row after a prefix that went through: its outcome decides. */
  lemma CollectStep(outcomes: seq<Result<Row, string>>, i: nat, done: seq<Row>)
    requires i < |outcomes| && Collect(outcomes[..i]) == Success(done)
    ensures outcomes[i].Failure? ==> Collect(outcomes[..i + 1]) == Failure(outcomes[i].error)
    ensures outcomes[i].Success? ==> Collect(outcomes[..i + 1]) == Success(done + [outcomes[i].value])
  {
    TakeOneMore(outcomes, i);
  }

  /** A run that has failed on a prefix of the rows fails with the same error on all of them. */
  lemma {:induction false} CollectFailureStays(outcomes: seq<Result<Row, string>>, n: nat)
    requires n <= |outcomes| && Collect(outcomes[..n]).Failure?
    ensures Collect(outcomes) == Collect(outcomes[..n])
    decreases |outcomes| - n
  {
    if n == |outcomes| {
      assert outcomes[..n] == outcomes;
    } else {
      var m := |outcomes| - 1;
      assert outcomes[..m][..n] == outcomes[..n];
      CollectFailureStays(outcomes[..m], n);
    }
  }

  /**
    `update_csv_with_dblp`: the header gains `dblp` if it lacks it, and the rows
    are what `Collect` makes of the rows' outcomes: on success `outRows`,
    otherwise `error`.
  */
  method UpdateCsvWithDblp(fieldnames: seq<string>, rows: seq<Row>, author2id: map<string, string>,
                           services: seq<Services>, interactive: bool)
    returns (outFields: seq<string>, outRows: seq<Row>, error: Option<string>)
    requires |services| == |rows|
    ensures outFields == EnsureColumn(fieldnames, "dblp")
    ensures error.None? ==> Collect(Outcomes(rows, author2id, services, interactive)) == Success(outRows)
    ensures error.Some? ==> Collect(Outcomes(rows, author2id, services, interactive)) == Failure(error.value)
  {
    ghost var outcomes := Outcomes(rows, author2id, services, interactive);
    outFields := AddDblpColumn(fieldnames);
    outRows := [];
    error := None;
    var i := 0;
    while i < |rows|
      invariant 0 <= i <= |rows|
      invariant Collect(outcomes[..i]) == Success(outRows) && error.None?
    {
      var fields;
      fields, error := MatchOneRow(rows[i], author2id, services[i], interactive);
      OutcomeAt(rows, author2id, services, interactive, i);
      CollectStep(outcomes, i, outRows);
      if error.Some? {
        CollectFailureStays(outcomes, i + 1);
        return;
      }
      outRows := outRows + [fields];
      i := i + 1;
    }
    TakeAll(outcomes);
  }
}
