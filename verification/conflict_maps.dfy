/**
  The maps both conflict finders build before they look at the submissions
  (find_conflicts.py:9-31 and easychair_identify_conflicts.py:8-30, the same
  code but for the name of the id column): publications grouped by resolved
  author id, the resolved author ids of every publication, and the committee's
  id -> member number and member number -> name tables.

  `author2id`, `author2pubs` and `pub2authors` are given maps: the functions
  that load them are not part of this model.
*/
module ConflictMaps {
  import opened CsvRows
  import opened Seqs
  import DblpData

  /** The ids of the names in `names` that `author2id` maps; unmapped names are dropped. */
  function IdsOf(author2id: map<string, string>, names: set<string>): set<string> {
    set a | a in names && a in author2id :: author2id[a]
  }

  /** Visiting one more name adds its id, if it has one. */
  lemma IdsOfStep(author2id: map<string, string>, names: set<string>, a: string)
    ensures IdsOf(author2id, names + {a}) == IdsOf(author2id, names) + (if a in author2id then {author2id[a]} else {})
  {
    var left, right := IdsOf(author2id, names + {a}), IdsOf(author2id, names) + (if a in author2id then {author2id[a]} else {});
    forall id | id in left ensures id in right {
      var b :| b in names + {a} && b in author2id && author2id[b] == id;
      if b != a {
        assert id in IdsOf(author2id, names);
      }
    }
    forall id | id in right ensures id in left {
      if id in IdsOf(author2id, names) {
        var b :| b in names && b in author2id && author2id[b] == id;
        assert b in names + {a};
      } else {
        assert a in names + {a};
      }
    }
  }

  /** The publications of those names in `names` that `author2id` maps to `id`. */
  function PubsOfId(author2id: map<string, string>, author2pubs: map<string, set<string>>, names: set<string>,
                    id: string): set<string>
    requires names <= author2pubs.Keys
  {
    set a, p | a in names && a in author2id && author2id[a] == id && p in author2pubs[a] :: p
  }

  /** `id2pubs` once the names in `names` have been visited. */
  function Id2PubsOf(author2id: map<string, string>, author2pubs: map<string, set<string>>, names: set<string>)
    : map<string, set<string>>
    requires names <= author2pubs.Keys
  {
    map id | id in IdsOf(author2id, names) :: PubsOfId(author2id, author2pubs, names, id)
  }

  /**
    `id2pubs` (lines 9-14): an id is a key exactly when some name with
    publications maps to it, and its value is the union of the publications of
    all names that map to it.
  */
  function Id2Pubs(author2id: map<string, string>, author2pubs: map<string, set<string>>): map<string, set<string>> {
    Id2PubsOf(author2id, author2pubs, author2pubs.Keys)
  }

  /** Visiting one more name adds its publications under its id, creating the entry if needed. */
  lemma Id2PubsStep(author2id: map<string, string>, author2pubs: map<string, set<string>>, names: set<string>,
                    a: string)
    requires names <= author2pubs.Keys && a in author2pubs
    ensures var before := Id2PubsOf(author2id, author2pubs, names);
            Id2PubsOf(author2id, author2pubs, names + {a})
            == if a in author2id then
                 before[author2id[a] := (if author2id[a] in before then before[author2id[a]] else {}) + author2pubs[a]]
               else before
  {
    var before := Id2PubsOf(author2id, author2pubs, names);
    var after := Id2PubsOf(author2id, author2pubs, names + {a});
    if a in author2id {
      var id := author2id[a];
      IdsOfStep(author2id, names, a);
      forall j | j in after
        ensures after[j] == (if j == id then (if id in before then before[id] else {}) + author2pubs[a] else before[j])
      {
        var added := if j == id then author2pubs[a] else {};
        forall p | p in after[j] ensures p in PubsOfId(author2id, author2pubs, names, j) + added {
          var b :| b in names + {a} && b in author2id && author2id[b] == j && p in author2pubs[b];
        }
        forall p | p in PubsOfId(author2id, author2pubs, names, j) + added ensures p in after[j] {
          if p in added {
            assert a in names + {a} && author2id[a] == j && p in author2pubs[a];
          } else {
            var b :| b in names && b in author2id && author2id[b] == j && p in author2pubs[b];
            assert b in names + {a};
          }
        }
        if j != id || id in before {
          assert j in IdsOf(author2id, names) || j == id;
        }
        if j == id && id !in before {
          assert PubsOfId(author2id, author2pubs, names, j) == {};
        }
      }
    } else {
      IdsOfStep(author2id, names, a);
      forall j | j in after ensures after[j] == before[j] {
        forall p | p in after[j] ensures p in before[j] {
          var b :| b in names + {a} && b in author2id && author2id[b] == j && p in author2pubs[b];
          assert b in names;
        }
      }
    }
  }

  /** Lines 12-14: the id's set is created when missing, then the publications are added to it. */
  method AddPubs(id2pubs: map<string, set<string>>, id: string, pubs: set<string>)
    returns (r: map<string, set<string>>)
    ensures r == id2pubs[id := (if id in id2pubs then id2pubs[id] else {}) + pubs]
  {
    r := id2pubs;
    if id !in r {
      r := r[id := {}];
    }
    r := r[id := r[id] + pubs];
  }

  /**
    Lines 9-14: the loop over `author2pubs`, creating an id's set when it first
    appears and adding each mapped name's publications to it. Python visits the
    names in insertion order; any order gives the same maps.
  */
  method BuildId2Pubs(author2id: map<string, string>, author2pubs: map<string, set<string>>)
    returns (id2pubs: map<string, set<string>>)
    ensures id2pubs == Id2Pubs(author2id, author2pubs)
  {
    id2pubs := map[];
    var visited: set<string> := {};
    var remaining := author2pubs.Keys;
    assert Id2PubsOf(author2id, author2pubs, {}) == map[];
    while remaining != {}
      invariant visited + remaining == author2pubs.Keys
      invariant id2pubs == Id2PubsOf(author2id, author2pubs, visited)
      decreases |remaining|
    {
      var author :| author in remaining;
      Id2PubsStep(author2id, author2pubs, visited, author);
      if author in author2id {
        id2pubs := AddPubs(id2pubs, author2id[author], author2pubs[author]);
      }
      visited := visited + {author};
      remaining := remaining - {author};
    }
  }

  /** An id is in `id2pubs` exactly when some name with publications maps to it. */
  lemma Id2PubsKeys(author2id: map<string, string>, author2pubs: map<string, set<string>>, id: string)
    ensures id in Id2Pubs(author2id, author2pubs) <==>
            exists a :: a in author2pubs && a in author2id && author2id[a] == id
  {
    if exists a :: a in author2pubs && a in author2id && author2id[a] == id {
      var a :| a in author2pubs && a in author2id && author2id[a] == id;
      assert id in IdsOf(author2id, author2pubs.Keys);
    }
  }

  /** `id2pubs[id]` holds exactly the publications of the names that map to `id`. */
  lemma Id2PubsValues(author2id: map<string, string>, author2pubs: map<string, set<string>>, id: string, p: string)
    requires id in Id2Pubs(author2id, author2pubs)
    ensures p in Id2Pubs(author2id, author2pubs)[id] <==>
            exists a :: a in author2pubs && a in author2id && author2id[a] == id && p in author2pubs[a]
  {
    if exists a :: a in author2pubs && a in author2id && author2id[a] == id && p in author2pubs[a] {
      var a :| a in author2pubs && a in author2id && author2id[a] == id && p in author2pubs[a];
      assert p in PubsOfId(author2id, author2pubs, author2pubs.Keys, id);
    }
  }

  /** `pub2ids` once the publications in `pubs` have been visited. */
  function Pub2IdsOf(author2id: map<string, string>, pub2authors: map<string, set<string>>, pubs: set<string>)
    : map<string, set<string>>
    requires pubs <= pub2authors.Keys
  {
    map p | p in pubs :: IdsOf(author2id, pub2authors[p])
  }

  /**
    `pub2ids` (lines 16-21): every publication of `pub2authors` is a key, and its
    value is the set of ids of its mapped authors.
  */
  function Pub2Ids(author2id: map<string, string>, pub2authors: map<string, set<string>>): map<string, set<string>> {
    Pub2IdsOf(author2id, pub2authors, pub2authors.Keys)
  }

  /** Lines 18-21: the ids of one publication's mapped authors, added one by one. */
  method MappedIds(author2id: map<string, string>, authors: set<string>) returns (ids: set<string>)
    ensures ids == IdsOf(author2id, authors)
  {
    ids := {};
    var visited: set<string> := {};
    var remaining := authors;
    while remaining != {}
      invariant visited + remaining == authors && visited !! remaining
      invariant ids == IdsOf(author2id, visited)
      decreases |remaining|
    {
      var author :| author in remaining;
      ids := AddId(author2id, ids, visited, author);
      visited := visited + {author};
      remaining := remaining - {author};
    }
  }

  /** Line 21 for one author: its id joins the ids of the authors visited before. */
  method AddId(author2id: map<string, string>, ids: set<string>, visited: set<string>, author: string)
    returns (r: set<string>)
    requires ids == IdsOf(author2id, visited)
    ensures r == IdsOf(author2id, visited + {author})
  {
    IdsOfStep(author2id, visited, author);
    if author in author2id {
      r := ids + {author2id[author]};
    } else {
      r := ids;
    }
  }

  /** One more publication adds its key with the ids of its mapped authors. */
  lemma Pub2IdsOfStep(author2id: map<string, string>, pub2authors: map<string, set<string>>, visited: set<string>,
                      pub: string)
    requires visited <= pub2authors.Keys && pub in pub2authors
    ensures Pub2IdsOf(author2id, pub2authors, visited + {pub})
            == Pub2IdsOf(author2id, pub2authors, visited)[pub := IdsOf(author2id, pub2authors[pub])]
  {
  }

  /** Lines 16-21: the loop over `pub2authors`. */
  method BuildPub2Ids(author2id: map<string, string>, pub2authors: map<string, set<string>>)
    returns (pub2ids: map<string, set<string>>)
    ensures pub2ids == Pub2Ids(author2id, pub2authors)
  {
    pub2ids := map[];
    var visited: set<string> := {};
    var remaining := pub2authors.Keys;
    while remaining != {}
      invariant visited + remaining == pub2authors.Keys && visited !! remaining
      invariant pub2ids == Pub2IdsOf(author2id, pub2authors, visited)
      decreases |remaining|
    {
      var pub :| pub in remaining;
      var ids := MappedIds(author2id, pub2authors[pub]);
      pub2ids := pub2ids[pub := ids];
      Pub2IdsOfStep(author2id, pub2authors, visited, pub);
      visited := visited + {pub};
      remaining := remaining - {pub};
    }
  }

  /** `pub2ids` has a key per publication, whose value holds exactly the ids of its mapped authors. */
  lemma Pub2IdsMembers(author2id: map<string, string>, pub2authors: map<string, set<string>>, p: string, id: string)
    ensures p in Pub2Ids(author2id, pub2authors) <==> p in pub2authors
    ensures p in pub2authors ==>
              (id in Pub2Ids(author2id, pub2authors)[p] <==>
               exists a :: a in pub2authors[p] && a in author2id && author2id[a] == id)
  {
    if p in pub2authors && exists a :: a in pub2authors[p] && a in author2id && author2id[a] == id {
      var a :| a in pub2authors[p] && a in author2id && author2id[a] == id;
      assert id in IdsOf(author2id, pub2authors[p]);
    }
  }

  /** The three columns every committee row must have (lines 30-31 index them). */
  predicate PersonColumns(row: Row) {
    "person #" in row && "first name" in row && "last name" in row
  }

  predicate AllPersonRows(rows: seq<Row>) {
    forall i :: 0 <= i < |rows| ==> PersonColumns(rows[i])
  }

  /** `row['first name'] + ' ' + row['last name']`, not stripped. */
  function PersonName(row: Row): string
    requires "first name" in row && "last name" in row
  {
    row["first name"] + " " + row["last name"]
  }

  /**
    `committee_ids` after the rows (line 29-30): every row whose id column is
    filled maps that id to its member number; a later row overwrites.
  */
  function CommitteeIds(rows: seq<Row>, column: string): map<string, string>
    requires AllPersonRows(rows)
    decreases |rows|
  {
    if rows == [] then map[]
    else
      var n := |rows| - 1;
      var before := CommitteeIds(rows[..n], column);
      if Filled(rows[n], column) then before[rows[n][column] := rows[n]["person #"]] else before
  }

  /** `person_num_mapping` after the rows (line 31): every row's member number maps to its name. */
  function PersonNames(rows: seq<Row>): map<string, string>
    requires AllPersonRows(rows)
    decreases |rows|
  {
    if rows == [] then map[]
    else
      var n := |rows| - 1;
      PersonNames(rows[..n])[rows[n]["person #"] := PersonName(rows[n])]
  }

  /** Lines 24-31: the loop over the committee rows, for the given id column. */
  method BuildCommittee(rows: seq<Row>, column: string) returns (committeeIds: map<string, string>,
                                                                personNames: map<string, string>)
    requires AllPersonRows(rows)
    ensures committeeIds == CommitteeIds(rows, column)
    ensures personNames == PersonNames(rows)
  {
    committeeIds := map[];
    personNames := map[];
    var i := 0;
    while i < |rows|
      invariant 0 <= i <= |rows|
      invariant committeeIds == CommitteeIds(rows[..i], column)
      invariant personNames == PersonNames(rows[..i])
    {
      CommitteeStep(rows, column, i);
      var row := rows[i];
      if Filled(row, column) {
        committeeIds := committeeIds[row[column] := row["person #"]];
      }
      personNames := personNames[row["person #"] := PersonName(row)];
      i := i + 1;
    }
    TakeAll(rows);
  }

  /** One more committee row: how both maps of lines 29-31 change. */
  lemma CommitteeStep(rows: seq<Row>, column: string, i: nat)
    requires AllPersonRows(rows) && i < |rows|
    ensures AllPersonRows(rows[..i]) && AllPersonRows(rows[..i + 1])
    ensures CommitteeIds(rows[..i + 1], column)
            == if Filled(rows[i], column) then CommitteeIds(rows[..i], column)[rows[i][column] := rows[i]["person #"]]
               else CommitteeIds(rows[..i], column)
    ensures PersonNames(rows[..i + 1]) == PersonNames(rows[..i])[rows[i]["person #"] := PersonName(rows[i])]
  {
    TakeOneMore(rows, i);
  }

  /** Row `i` declares id `c` in the id column. */
  predicate Declares(rows: seq<Row>, column: string, i: int, c: string) {
    0 <= i < |rows| && Filled(rows[i], column) && rows[i][column] == c
  }

  /** The last row that declares id `c`, or -1 when none does. */
  function LastDeclaring(rows: seq<Row>, column: string, c: string): int
    decreases |rows|
  {
    if rows == [] then -1
    else if Declares(rows, column, |rows| - 1, c) then |rows| - 1
    else LastDeclaring(rows[..|rows| - 1], column, c)
  }

  /** `LastDeclaring` is a declaring row with no declaring row after it; -1 means no row declares `c`. */
  lemma {:induction false} LastDeclaringSpec(rows: seq<Row>, column: string, c: string)
    ensures var k := LastDeclaring(rows, column, c);
            && -1 <= k < |rows|
            && (k >= 0 ==> Declares(rows, column, k, c))
            && forall j :: k < j < |rows| ==> !Declares(rows, column, j, c)
    decreases |rows|
  {
    if rows != [] {
      var n := |rows| - 1;
      if !Declares(rows, column, n, c) {
        var init := rows[..n];
        LastDeclaringSpec(init, column, c);
        var k := LastDeclaring(init, column, c);
        forall j | 0 <= j < n ensures Declares(init, column, j, c) == Declares(rows, column, j, c) {
          assert init[j] == rows[j];
        }
      }
    }
  }

  /**
    An id is in `committee_ids` exactly when some row declares it, and then its
    value is the member number of the LAST row that does.
  */
  lemma {:induction false} CommitteeIdsLastWins(rows: seq<Row>, column: string, c: string)
    requires AllPersonRows(rows)
    ensures var k := LastDeclaring(rows, column, c);
            && (c in CommitteeIds(rows, column) <==> k >= 0)
            && (k >= 0 ==> 0 <= k < |rows| && CommitteeIds(rows, column)[c] == rows[k]["person #"])
    decreases |rows|
  {
    if rows != [] {
      var n := |rows| - 1;
      var init := rows[..n];
      CommitteeIdsLastWins(init, column, c);
      LastDeclaringSpec(init, column, c);
      var k := LastDeclaring(init, column, c);
      if k >= 0 {
        assert init[k] == rows[k];
      }
    }
  }

  /** The last row carrying member number `num`, or -1 when none does. */
  function LastNumbered(rows: seq<Row>, num: string): int
    requires AllPersonRows(rows)
    decreases |rows|
  {
    if rows == [] then -1
    else if rows[|rows| - 1]["person #"] == num then |rows| - 1
    else LastNumbered(rows[..|rows| - 1], num)
  }

  /** `LastNumbered` is a row with that number and no later row has it; -1 means no row has it. */
  lemma {:induction false} LastNumberedSpec(rows: seq<Row>, num: string)
    requires AllPersonRows(rows)
    ensures var k := LastNumbered(rows, num);
            && -1 <= k < |rows|
            && (k >= 0 ==> rows[k]["person #"] == num)
            && forall j :: k < j < |rows| ==> rows[j]["person #"] != num
    decreases |rows|
  {
    if rows != [] {
      var n := |rows| - 1;
      if rows[n]["person #"] != num {
        var init := rows[..n];
        LastNumberedSpec(init, num);
        forall j | 0 <= j < n ensures init[j]["person #"] == rows[j]["person #"] {
          assert init[j] == rows[j];
        }
      }
    }
  }

  /** Every committee row's member number is named in `person_num_mapping`. */
  lemma {:induction false} PersonNamesCover(rows: seq<Row>)
    requires AllPersonRows(rows)
    ensures forall i :: 0 <= i < |rows| ==> rows[i]["person #"] in PersonNames(rows)
    decreases |rows|
  {
    if rows != [] {
      var n := |rows| - 1;
      var init := rows[..n];
      PersonNamesCover(init);
      forall i | 0 <= i < n ensures rows[i]["person #"] in PersonNames(rows) {
        assert init[i] == rows[i];
      }
    }
  }

  /**
    A member number is in `person_num_mapping` exactly when some row carries it,
    and then it maps to the name of the LAST row that does.
  */
  lemma {:induction false} PersonNamesLastWins(rows: seq<Row>, num: string)
    requires AllPersonRows(rows)
    ensures var k := LastNumbered(rows, num);
            && (num in PersonNames(rows) <==> k >= 0)
            && (k >= 0 ==> 0 <= k < |rows| && PersonNames(rows)[num] == PersonName(rows[k]))
    decreases |rows|
  {
    if rows != [] {
      var n := |rows| - 1;
      var init := rows[..n];
      PersonNamesLastWins(init, num);
      LastNumberedSpec(init, num);
      var k := LastNumbered(init, num);
      if k >= 0 {
        assert init[k] == rows[k];
      }
    }
  }

  /** Every member number in `committee_ids` has a name (line 53 never raises KeyError). */
  lemma {:induction false} CommitteeNumbersNamed(rows: seq<Row>, column: string, c: string)
    requires AllPersonRows(rows)
    requires c in CommitteeIds(rows, column)
    ensures CommitteeIds(rows, column)[c] in PersonNames(rows)
    decreases |rows|
  {
    var n := |rows| - 1;
    var init := rows[..n];
    if !(Filled(rows[n], column) && rows[n][column] == c) {
      CommitteeNumbersNamed(init, column, c);
      PersonNamesGrow(rows);
    }
  }

  /** A member number named by a prefix of the rows stays named. */
  lemma PersonNamesGrow(rows: seq<Row>)
    requires AllPersonRows(rows) && rows != []
    ensures AllPersonRows(rows[..|rows| - 1])
    ensures PersonNames(rows[..|rows| - 1]).Keys <= PersonNames(rows).Keys
  {
  }

  /**
    The maps of the DBLP pass meet what the conflict finders need: every
    publication listed under an author is a key of `publications`, so every
    publication in `id2pubs` is a key of `pub2ids` (line 45 never raises KeyError).
  */
  lemma IndexPubsAreKeys(ix: DblpData.Index, author2id: map<string, string>, id: string, p: string)
    requires DblpData.Valid(ix)
    requires id in Id2Pubs(author2id, ix.authors) && p in Id2Pubs(author2id, ix.authors)[id]
    ensures p in Pub2Ids(author2id, ix.publications)
  {
    Id2PubsValues(author2id, ix.authors, id, p);
    var a :| a in ix.authors && a in author2id && author2id[a] == id && p in ix.authors[a];
  }

  /**
    When `pub2authors` lists every author under each of their publications (as
    the DBLP pass does when no key repeats), an id's own publications list that
    id among their authors' ids.
  */
  lemma OwnPublicationsListId(author2id: map<string, string>, author2pubs: map<string, set<string>>,
                              pub2authors: map<string, set<string>>, id: string, p: string)
    requires forall a, q :: a in author2pubs && q in author2pubs[a] ==> q in pub2authors && a in pub2authors[q]
    requires id in Id2Pubs(author2id, author2pubs) && p in Id2Pubs(author2id, author2pubs)[id]
    ensures p in Pub2Ids(author2id, pub2authors) && id in Pub2Ids(author2id, pub2authors)[p]
  {
    Id2PubsValues(author2id, author2pubs, id, p);
    var a :| a in author2pubs && a in author2id && author2id[a] == id && p in author2pubs[a];
    Pub2IdsMembers(author2id, pub2authors, p, id);
  }
}
