/**
  The EasyChair variant of the conflict finder (easychair_identify_conflicts.py):
  committee and author rows both carry their id in the "dblp" column, and the
  result is the set of pairs (author id, committee id) for every publication of
  the author that lists the committee member. Python visits the sets in an
  unspecified order; a set result does not depend on it.
*/
module EasychairIdentifyConflicts {
  import opened CsvRows
  import opened ConflictMaps
  import opened Seqs

  /** A conflict: (author's dblp id, committee member's dblp id). */
  type Pair = (string, string)

  /** `dblp in id2pubs` for `dblp = row.get('dblp')`: a missing column never matches. */
  predicate Reaches(row: Row, id2pubs: map<string, set<string>>) {
    "dblp" in row && row["dblp"] in id2pubs
  }

  /** Line 40 looks up `pub2ids[pub]` for every publication of a reaching row's id. */
  predicate AuthorRowsOk(rows: seq<Row>, id2pubs: map<string, set<string>>, pub2ids: map<string, set<string>>) {
    forall i :: 0 <= i < |rows| && Reaches(rows[i], id2pubs) ==> id2pubs[rows[i]["dblp"]] <= pub2ids.Keys
  }

  /** The pairs one publication adds for author `dblp`: one per listed committee member. */
  function PubPairs(dblp: string, conflicts: set<string>): set<Pair> {
    set c | c in conflicts :: (dblp, c)
  }

  /** The pairs the publications `pubs` of author `dblp` add. */
  function PubsPairs(dblp: string, pubs: set<string>, pub2ids: map<string, set<string>>, committee: set<string>): set<Pair>
    requires pubs <= pub2ids.Keys
  {
    set p, c | p in pubs && c in pub2ids[p] && c in committee :: (dblp, c)
  }

  /** The pairs one author row adds (lines 37-41). */
  function RowPairs(row: Row, id2pubs: map<string, set<string>>, pub2ids: map<string, set<string>>,
                    committee: set<string>): set<Pair>
    requires Reaches(row, id2pubs) ==> id2pubs[row["dblp"]] <= pub2ids.Keys
  {
    if Reaches(row, id2pubs) then PubsPairs(row["dblp"], id2pubs[row["dblp"]], pub2ids, committee) else {}
  }

  /** `cois` after the author rows. */
  function Pairs(rows: seq<Row>, id2pubs: map<string, set<string>>, pub2ids: map<string, set<string>>,
                 committee: set<string>): set<Pair>
    requires AuthorRowsOk(rows, id2pubs, pub2ids)
    decreases |rows|
  {
    if rows == [] then {}
    else
      var n := |rows| - 1;
      Pairs(rows[..n], id2pubs, pub2ids, committee) + RowPairs(rows[n], id2pubs, pub2ids, committee)
  }

  /** Line 41 for every committee member listed by one publication. */
  method AddConflicts(cois: set<Pair>, dblp: string, conflicts: set<string>) returns (r: set<Pair>)
    ensures r == cois + PubPairs(dblp, conflicts)
  {
    r := cois;
    var visited: set<string> := {};
    var remaining := conflicts;
    while remaining != {}
      invariant visited + remaining == conflicts && visited !! remaining
      invariant r == cois + PubPairs(dblp, visited)
      decreases |remaining|
    {
      var conflict :| conflict in remaining;
      r := r + {(dblp, conflict)};
      visited := visited + {conflict};
      remaining := remaining - {conflict};
    }
  }

  /** One more publication adds the pairs of its listed committee members. */
  lemma PubsPairsStep(dblp: string, pubs: set<string>, pub: string, pub2ids: map<string, set<string>>,
                      committee: set<string>)
    requires pubs <= pub2ids.Keys && pub in pub2ids
    ensures PubsPairs(dblp, pubs + {pub}, pub2ids, committee)
            == PubsPairs(dblp, pubs, pub2ids, committee) + PubPairs(dblp, pub2ids[pub] * committee)
  {
    var left := PubsPairs(dblp, pubs + {pub}, pub2ids, committee);
    var right := PubsPairs(dblp, pubs, pub2ids, committee) + PubPairs(dblp, pub2ids[pub] * committee);
    forall x | x in left ensures x in right {
      var p, c :| p in pubs + {pub} && c in pub2ids[p] && c in committee && x == (dblp, c);
      if p != pub {
        assert x in PubsPairs(dblp, pubs, pub2ids, committee);
      }
    }
    forall x | x in right ensures x in left {
      if x !in PubsPairs(dblp, pubs, pub2ids, committee) {
        var c :| c in pub2ids[pub] * committee && x == (dblp, c);
        assert pub in pubs + {pub};
      }
    }
  }

  /** Lines 39-41: the loop over the publications of author `dblp`. */
  method AddPubsConflicts(cois: set<Pair>, dblp: string, pubs: set<string>, pub2ids: map<string, set<string>>,
                          committee: set<string>)
    returns (r: set<Pair>)
    requires pubs <= pub2ids.Keys
    ensures r == cois + PubsPairs(dblp, pubs, pub2ids, committee)
  {
    r := cois;
    var visited: set<string> := {};
    var remaining := pubs;
    while remaining != {}
      invariant visited + remaining == pubs && visited !! remaining
      invariant r == cois + PubsPairs(dblp, visited, pub2ids, committee)
      decreases |remaining|
    {
      var pub :| pub in remaining;
      r := AddConflicts(r, dblp, pub2ids[pub] * committee);
      PubsPairsStep(dblp, visited, pub, pub2ids, committee);
      visited := visited + {pub};
      remaining := remaining - {pub};
    }
  }

  /** Lines 35-41: the loop over the author rows. */
  method CollectConflicts(rows: seq<Row>, id2pubs: map<string, set<string>>, pub2ids: map<string, set<string>>,
                          committee: set<string>)
    returns (cois: set<Pair>)
    requires AuthorRowsOk(rows, id2pubs, pub2ids)
    ensures cois == Pairs(rows, id2pubs, pub2ids, committee)
  {
    cois := {};
    var i := 0;
    while i < |rows|
      invariant 0 <= i <= |rows|
      invariant cois == Pairs(rows[..i], id2pubs, pub2ids, committee)
    {
      TakeOneMore(rows, i);
      var row := rows[i];
      if "dblp" in row && row["dblp"] in id2pubs {
        cois := AddPubsConflicts(cois, row["dblp"], id2pubs[row["dblp"]], pub2ids, committee);
      }
      i := i + 1;
    }
    TakeAll(rows);
  }

  /** Author row `i` has id `d`, and its publication `p` lists committee member `c`. */
  predicate Witness(rows: seq<Row>, id2pubs: map<string, set<string>>, pub2ids: map<string, set<string>>,
                    committee: set<string>, d: string, c: string, i: int, p: string)
    requires AuthorRowsOk(rows, id2pubs, pub2ids)
  {
    && 0 <= i < |rows| && Reaches(rows[i], id2pubs) && rows[i]["dblp"] == d
    && p in id2pubs[d] && c in pub2ids[p] && c in committee
  }

  /**
    (d, c) is a conflict exactly when some author row has id `d` with a
    publication whose resolved authors include committee member `c`.
  */
  lemma {:induction false} PairsMembers(rows: seq<Row>, id2pubs: map<string, set<string>>,
                                        pub2ids: map<string, set<string>>, committee: set<string>, d: string, c: string)
    requires AuthorRowsOk(rows, id2pubs, pub2ids)
    ensures (d, c) in Pairs(rows, id2pubs, pub2ids, committee) <==>
            exists i, p :: Witness(rows, id2pubs, pub2ids, committee, d, c, i, p)
    decreases |rows|
  {
    if rows != [] {
      var n := |rows| - 1;
      var init := rows[..n];
      PairsMembers(init, id2pubs, pub2ids, committee, d, c);
      forall i, p | 0 <= i < n ensures Witness(init, id2pubs, pub2ids, committee, d, c, i, p)
                                       == Witness(rows, id2pubs, pub2ids, committee, d, c, i, p) {
        assert init[i] == rows[i];
      }
      if (d, c) in RowPairs(rows[n], id2pubs, pub2ids, committee) {
        var p, c' :| p in id2pubs[d] && c' in pub2ids[p] && c' in committee && (d, c) == (d, c');
        assert Witness(rows, id2pubs, pub2ids, committee, d, c, n, p);
      }
      if exists i, p :: Witness(rows, id2pubs, pub2ids, committee, d, c, i, p) {
        var i, p :| Witness(rows, id2pubs, pub2ids, committee, d, c, i, p);
        if i < n {
          assert Witness(init, id2pubs, pub2ids, committee, d, c, i, p);
        } else {
          assert (d, c) in RowPairs(rows[n], id2pubs, pub2ids, committee);
        }
      }
    }
  }

  /** Every conflict pairs an author id that has publications with a committee id. */
  lemma PairsComponents(rows: seq<Row>, id2pubs: map<string, set<string>>, pub2ids: map<string, set<string>>,
                        committee: set<string>, x: Pair)
    requires AuthorRowsOk(rows, id2pubs, pub2ids) && x in Pairs(rows, id2pubs, pub2ids, committee)
    ensures x.0 in id2pubs && x.1 in committee
  {
    PairsMembers(rows, id2pubs, pub2ids, committee, x.0, x.1);
  }

  /**
    `main` of easychair_identify_conflicts.py over given maps and rows, up to the
    debugger break: the set of conflicts, with committee ids read from the
    "dblp" column of the committee rows.
  */
  method IdentifyConflicts(author2id: map<string, string>, author2pubs: map<string, set<string>>,
                           pub2authors: map<string, set<string>>, committeeRows: seq<Row>, authorRows: seq<Row>)
    returns (cois: set<Pair>)
    requires AllPersonRows(committeeRows)
    requires AuthorRowsOk(authorRows, Id2Pubs(author2id, author2pubs), Pub2Ids(author2id, pub2authors))
    ensures cois == Pairs(authorRows, Id2Pubs(author2id, author2pubs), Pub2Ids(author2id, pub2authors),
                          CommitteeIds(committeeRows, "dblp").Keys)
  {
    var id2pubs := BuildId2Pubs(author2id, author2pubs);
    var pub2ids := BuildPub2Ids(author2id, pub2authors);
    var committeeIds, personNames := BuildCommittee(committeeRows, "dblp");
    cois := CollectConflicts(authorRows, id2pubs, pub2ids, committeeIds.Keys);
  }
}
