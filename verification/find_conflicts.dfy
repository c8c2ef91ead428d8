/**
  The conflict finder of find_conflicts.py: for every submission author with a
  resolved id, every publication of that id and every committee member among
  that publication's resolved authors, one justification "<pub> with <first>
  <last>" is appended under the key (submission #, committee id); the report
  has one row per key, in sorted key order.

  Python visits the sets `id2pubs[dblp]` and `pub2ids[pub] & committee_ids.keys()`
  in an unspecified order, so the model fixes only which justifications each key
  receives and how often, not their order within the key.
*/
module FindConflicts {
  import opened Wrappers
  import opened Text
  import opened CsvRows
  import opened ConflictMaps
  import opened Seqs

  /** A conflict key: (submission #, committee member's dblp id). */
  type Key = (string, string)

  /** The justification of line 46. */
  function Justify(pub: string, name: string): string {
    pub + " with " + name
  }

  /** For one author name, different publications give different justifications. */
  lemma JustifyInjective(p1: string, p2: string, name: string)
    requires Justify(p1, name) == Justify(p2, name)
    ensures p1 == p2
  {
    var suffix := " with " + name;
    assert |p1| == |p2|;
    assert p1 == Justify(p1, name)[..|p1|];
    assert p2 == Justify(p2, name)[..|p2|];
  }

  /** The columns line 42 reads from every author row. */
  predicate NameColumns(row: Row) {
    "first name" in row && "last name" in row
  }

  /** `dblp in id2pubs` for `dblp = row.get('dblp_id')`: a missing column never matches. */
  predicate Reaches(row: Row, id2pubs: map<string, set<string>>) {
    "dblp_id" in row && row["dblp_id"] in id2pubs
  }

  /**
    What the author rows must have for lines 39-45 not to raise: a member number
    when the id is filled; both name columns; and, for a row whose id is in
    `id2pubs`, a `pub2ids` entry for each of the id's publications.
  */
  predicate AuthorRowOk(row: Row, id2pubs: map<string, set<string>>, pub2ids: map<string, set<string>>) {
    && (Filled(row, "dblp_id") ==> "person #" in row)
    && NameColumns(row)
    && (Reaches(row, id2pubs) ==> id2pubs[row["dblp_id"]] <= pub2ids.Keys)
  }

  /**
    Line 46 reads `submission #` only for a row that has a conflict: its id is
    in `id2pubs` and one of the id's publications lists a committee member.
  */
  predicate SubmissionWhenConflict(row: Row, id2pubs: map<string, set<string>>, pub2ids: map<string, set<string>>,
                                   committee: set<string>) {
    && Reaches(row, id2pubs)
    && (exists p :: p in id2pubs[row["dblp_id"]] && p in pub2ids && pub2ids[p] * committee != {})
    ==> "submission #" in row
  }

  predicate AuthorRowsOk(rows: seq<Row>, id2pubs: map<string, set<string>>, pub2ids: map<string, set<string>>) {
    forall i :: 0 <= i < |rows| ==> AuthorRowOk(rows[i], id2pubs, pub2ids)
  }

  /**
    The justifications that the publications in `pubs` of one author row (of
    submission `sub`, named `name`) add under `key`: one per publication that
    lists the key's committee member.
  */
  function PubsEntries(pubs: set<string>, sub: string, name: string, pub2ids: map<string, set<string>>,
                       committee: set<string>, key: Key): multiset<string>
    requires pubs <= pub2ids.Keys
  {
    if key.0 == sub && key.1 in committee then
      multiset(set p | p in pubs && key.1 in pub2ids[p] :: Justify(p, name))
    else
      multiset{}
  }

  /** What one author row adds under `key` (lines 39-46). */
  function RowEntries(row: Row, id2pubs: map<string, set<string>>, pub2ids: map<string, set<string>>,
                      committee: set<string>, key: Key): multiset<string>
    requires AuthorRowOk(row, id2pubs, pub2ids)
  {
    if Reaches(row, id2pubs) then
      PubsEntries(id2pubs[row["dblp_id"]], Get(row, "submission #"), row["first name"] + " " + row["last name"],
                  pub2ids, committee, key)
    else
      multiset{}
  }

  /**
    An author row whose `dblp_id` is missing or empty adds nothing, as long as
    the empty string is not itself a key of `id2pubs` (line 40 looks the id up
    as it is).
  */
  lemma UnresolvedRowAddsNothing(row: Row, id2pubs: map<string, set<string>>, pub2ids: map<string, set<string>>,
                                 committee: set<string>, key: Key)
    requires AuthorRowOk(row, id2pubs, pub2ids) && !Filled(row, "dblp_id") && "" !in id2pubs
    ensures RowEntries(row, id2pubs, pub2ids, committee, key) == multiset{}
  {
  }

  /**
    A row none of whose publications lists a committee member adds nothing, so
    its `submission #` (line 46) is never read.
  */
  lemma NoConflictAddsNothing(row: Row, id2pubs: map<string, set<string>>, pub2ids: map<string, set<string>>,
                              committee: set<string>, key: Key)
    requires AuthorRowOk(row, id2pubs, pub2ids)
    requires Reaches(row, id2pubs) ==>
               forall p :: p in id2pubs[row["dblp_id"]] && p in pub2ids ==> pub2ids[p] * committee == {}
    ensures RowEntries(row, id2pubs, pub2ids, committee, key) == multiset{}
  {
    if Reaches(row, id2pubs) && key.1 in committee {
      var pubs := id2pubs[row["dblp_id"]];
      var name := row["first name"] + " " + row["last name"];
      forall p | p in pubs ensures key.1 !in pub2ids[p] {
        assert key.1 !in pub2ids[p] * committee;
      }
      assert (set p | p in pubs && key.1 in pub2ids[p] :: Justify(p, name)) == {};
    }
  }

  /** What all the author rows add under `key`. */
  function Expected(rows: seq<Row>, id2pubs: map<string, set<string>>, pub2ids: map<string, set<string>>,
                    committee: set<string>, key: Key): multiset<string>
    requires AuthorRowsOk(rows, id2pubs, pub2ids)
    decreases |rows|
  {
    if rows == [] then multiset{}
    else
      var n := |rows| - 1;
      Expected(rows[..n], id2pubs, pub2ids, committee, key) + RowEntries(rows[n], id2pubs, pub2ids, committee, key)
  }

  /** `cois[key]` of the defaultdict: an absent key reads as the empty list. */
  function Entries(cois: map<Key, seq<string>>, key: Key): seq<string> {
    if key in cois then cois[key] else []
  }

  /** Keys are created only by an append, so no key holds an empty list. */
  predicate NoEmptyLists(cois: map<Key, seq<string>>) {
    forall key :: key in cois ==> cois[key] != []
  }

  /** The justifications under `key`, counted with their multiplicity. */
  function Bag(cois: map<Key, seq<string>>, key: Key): multiset<string> {
    multiset(Entries(cois, key))
  }

  /** `cois[key].append(x)` on the defaultdict. */
  function Append(cois: map<Key, seq<string>>, key: Key, x: string): map<Key, seq<string>> {
    cois[key := Entries(cois, key) + [x]]
  }

  /** The justification `x` of a publication whose listed committee members are `conflicts`, under `key`. */
  function Added(sub: string, conflicts: set<string>, x: string, key: Key): multiset<string> {
    if key.0 == sub && key.1 in conflicts then multiset{x} else multiset{}
  }

  /** An append adds `x` under its own key and leaves every other key's justifications alone. */
  lemma AppendBag(r: map<Key, seq<string>>, key: Key, x: string, other: Key)
    ensures Bag(Append(r, key, x), other) == Bag(r, other) + (if other == key then multiset{x} else multiset{})
  {
    if other == key {
      assert Entries(Append(r, key, x), other) == Entries(r, other) + [x];
    } else {
      assert Entries(Append(r, key, x), other) == Entries(r, other);
    }
  }

  lemma AppendNoEmptyLists(r: map<Key, seq<string>>, key: Key, x: string)
    requires NoEmptyLists(r)
    ensures NoEmptyLists(Append(r, key, x))
  {
  }

  /** Appending `x` under (sub, c) extends the justifications of `visited` by those of `c`. */
  lemma AppendStep(cois: map<Key, seq<string>>, r: map<Key, seq<string>>, sub: string, x: string,
                   visited: set<string>, c: string)
    requires c !in visited
    requires forall key :: Bag(r, key) == Bag(cois, key) + Added(sub, visited, x, key)
    ensures forall key :: Bag(Append(r, (sub, c), x), key) == Bag(cois, key) + Added(sub, visited + {c}, x, key)
  {
    forall key ensures Bag(Append(r, (sub, c), x), key) == Bag(cois, key) + Added(sub, visited + {c}, x, key) {
      AppendBag(r, (sub, c), x, key);
    }
  }

  /**
    Line 46 for one publication: its justification is appended under the key of
    every committee member in `conflicts`.
  */
  method AppendConflicts(cois: map<Key, seq<string>>, sub: string, justification: string, conflicts: set<string>)
    returns (r: map<Key, seq<string>>)
    requires NoEmptyLists(cois)
    ensures NoEmptyLists(r)
    ensures forall key :: Bag(r, key) == Bag(cois, key) + Added(sub, conflicts, justification, key)
  {
    r := cois;
    var visited: set<string> := {};
    var remaining := conflicts;
    while remaining != {}
      invariant visited + remaining == conflicts && visited !! remaining
      invariant NoEmptyLists(r)
      invariant forall key :: Bag(r, key) == Bag(cois, key) + Added(sub, visited, justification, key)
      decreases |remaining|
    {
      var conflict :| conflict in remaining;
      AppendStep(cois, r, sub, justification, visited, conflict);
      AppendNoEmptyLists(r, (sub, conflict), justification);
      r := Append(r, (sub, conflict), justification);
      visited := visited + {conflict};
      remaining := remaining - {conflict};
    }
  }

  /** Visiting one more publication adds its justification, if it lists the key's member. */
  lemma PubsEntriesStep(pubs: set<string>, pub: string, sub: string, name: string,
                        pub2ids: map<string, set<string>>, committee: set<string>, key: Key)
    requires pubs <= pub2ids.Keys && pub in pub2ids && pub !in pubs
    ensures PubsEntries(pubs + {pub}, sub, name, pub2ids, committee, key)
            == PubsEntries(pubs, sub, name, pub2ids, committee, key)
               + Added(sub, pub2ids[pub] * committee, Justify(pub, name), key)
  {
    if key.0 == sub && key.1 in committee {
      var before := set p | p in pubs && key.1 in pub2ids[p] :: Justify(p, name);
      var after := set p | p in pubs + {pub} && key.1 in pub2ids[p] :: Justify(p, name);
      if key.1 in pub2ids[pub] {
        assert after == before + {Justify(pub, name)};
        if Justify(pub, name) in before {
          var p :| p in pubs && key.1 in pub2ids[p] && Justify(p, name) == Justify(pub, name);
          JustifyInjective(p, pub, name);
          assert false;
        }
      } else {
        assert after == before;
      }
    }
  }

  /** The justifications of the publications visited so far, plus those of one more publication. */
  lemma PubsStep(cois: map<Key, seq<string>>, r: map<Key, seq<string>>, r': map<Key, seq<string>>,
                 visited: set<string>, pub: string, sub: string, name: string,
                 pub2ids: map<string, set<string>>, committee: set<string>)
    requires visited <= pub2ids.Keys && pub in pub2ids && pub !in visited
    requires forall key :: Bag(r, key) == Bag(cois, key) + PubsEntries(visited, sub, name, pub2ids, committee, key)
    requires forall key :: Bag(r', key) == Bag(r, key) + Added(sub, pub2ids[pub] * committee, Justify(pub, name), key)
    ensures forall key :: Bag(r', key) == Bag(cois, key) + PubsEntries(visited + {pub}, sub, name, pub2ids, committee, key)
  {
    forall key ensures Bag(r', key) == Bag(cois, key) + PubsEntries(visited + {pub}, sub, name, pub2ids, committee, key) {
      PubsEntriesStep(visited, pub, sub, name, pub2ids, committee, key);
    }
  }

  /** Lines 43-46: the loop over the publications `pubs` of an author of submission `sub`. */
  method AddPubsConflicts(cois: map<Key, seq<string>>, pubs: set<string>, sub: string, name: string,
                          pub2ids: map<string, set<string>>, committee: set<string>)
    returns (r: map<Key, seq<string>>)
    requires pubs <= pub2ids.Keys && NoEmptyLists(cois)
    ensures NoEmptyLists(r)
    ensures forall key :: Bag(r, key) == Bag(cois, key) + PubsEntries(pubs, sub, name, pub2ids, committee, key)
  {
    r := cois;
    var visited: set<string> := {};
    var remaining := pubs;
    while remaining != {}
      invariant visited + remaining == pubs && visited !! remaining
      invariant NoEmptyLists(r)
      invariant forall key :: Bag(r, key) == Bag(cois, key) + PubsEntries(visited, sub, name, pub2ids, committee, key)
      decreases |remaining|
    {
      var pub :| pub in remaining;
      var before := r;
      r := AppendConflicts(r, sub, Justify(pub, name), pub2ids[pub] * committee);
      PubsStep(cois, before, r, visited, pub, sub, name, pub2ids, committee);
      visited := visited + {pub};
      remaining := remaining - {pub};
    }
  }

  /** Lines 42-46 for one author row. */
  method AddRowConflicts(cois: map<Key, seq<string>>, row: Row, id2pubs: map<string, set<string>>,
                         pub2ids: map<string, set<string>>, committee: set<string>)
    returns (r: map<Key, seq<string>>)
    requires AuthorRowOk(row, id2pubs, pub2ids) && NoEmptyLists(cois)
    ensures NoEmptyLists(r)
    ensures forall key :: Bag(r, key) == Bag(cois, key) + RowEntries(row, id2pubs, pub2ids, committee, key)
  {
    var authorName := row["first name"] + " " + row["last name"];
    if "dblp_id" in row && row["dblp_id"] in id2pubs {
      r := AddPubsConflicts(cois, id2pubs[row["dblp_id"]], Get(row, "submission #"), authorName, pub2ids, committee);
    } else {
      r := cois;
    }
  }

  /** Lines 37-46: the loop over the author rows. */
  method CollectConflicts(rows: seq<Row>, id2pubs: map<string, set<string>>, pub2ids: map<string, set<string>>,
                          committee: set<string>)
    returns (cois: map<Key, seq<string>>)
    requires AuthorRowsOk(rows, id2pubs, pub2ids)
    ensures NoEmptyLists(cois)
    ensures forall key :: Bag(cois, key) == Expected(rows, id2pubs, pub2ids, committee, key)
  {
    cois := map[];
    var i := 0;
    while i < |rows|
      invariant 0 <= i <= |rows|
      invariant NoEmptyLists(cois)
      invariant forall key :: Bag(cois, key) == Expected(rows[..i], id2pubs, pub2ids, committee, key)
    {
      TakeOneMore(rows, i);
      cois := AddRowConflicts(cois, rows[i], id2pubs, pub2ids, committee);
      i := i + 1;
    }
    TakeAll(rows);
  }

  /** Author row `i` of submission `key.0` has an id with a publication that lists committee member `key.1`. */
  predicate Witness(rows: seq<Row>, id2pubs: map<string, set<string>>, pub2ids: map<string, set<string>>,
                    committee: set<string>, key: Key, i: int, p: string)
    requires AuthorRowsOk(rows, id2pubs, pub2ids)
  {
    && 0 <= i < |rows| && Reaches(rows[i], id2pubs)
    && Get(rows[i], "submission #") == key.0
    && p in id2pubs[rows[i]["dblp_id"]] && key.1 in pub2ids[p] && key.1 in committee
  }

  /** One author row adds something under `key` exactly when one of its publications is a witness. */
  lemma RowEntriesNonEmpty(rows: seq<Row>, id2pubs: map<string, set<string>>, pub2ids: map<string, set<string>>,
                           committee: set<string>, key: Key, i: int)
    requires AuthorRowsOk(rows, id2pubs, pub2ids) && 0 <= i < |rows|
    ensures RowEntries(rows[i], id2pubs, pub2ids, committee, key) != multiset{} <==>
            exists p :: Witness(rows, id2pubs, pub2ids, committee, key, i, p)
  {
    var row := rows[i];
    if exists p :: Witness(rows, id2pubs, pub2ids, committee, key, i, p) {
      var p :| Witness(rows, id2pubs, pub2ids, committee, key, i, p);
      var name := row["first name"] + " " + row["last name"];
      assert Justify(p, name) in RowEntries(row, id2pubs, pub2ids, committee, key);
    }
    if RowEntries(row, id2pubs, pub2ids, committee, key) != multiset{} {
      var name := row["first name"] + " " + row["last name"];
      var j :| j in RowEntries(row, id2pubs, pub2ids, committee, key);
      var p :| p in id2pubs[row["dblp_id"]] && key.1 in pub2ids[p] && Justify(p, name) == j;
      assert Witness(rows, id2pubs, pub2ids, committee, key, i, p);
    }
  }

  /**
    A key is in `cois` exactly when some author row of the key's submission has
    an id in `id2pubs` with a publication whose resolved authors include the
    key's committee member. (Rows without an id contribute nothing.)
  */
  lemma {:induction false} ExpectedNonEmpty(rows: seq<Row>, id2pubs: map<string, set<string>>,
                                            pub2ids: map<string, set<string>>, committee: set<string>, key: Key)
    requires AuthorRowsOk(rows, id2pubs, pub2ids)
    ensures Expected(rows, id2pubs, pub2ids, committee, key) != multiset{} <==>
            exists i, p :: Witness(rows, id2pubs, pub2ids, committee, key, i, p)
    decreases |rows|
  {
    if rows != [] {
      var n := |rows| - 1;
      var init := rows[..n];
      ExpectedNonEmpty(init, id2pubs, pub2ids, committee, key);
      RowEntriesNonEmpty(rows, id2pubs, pub2ids, committee, key, n);
      forall i, p | 0 <= i < n ensures Witness(init, id2pubs, pub2ids, committee, key, i, p)
                                       == Witness(rows, id2pubs, pub2ids, committee, key, i, p) {
        assert init[i] == rows[i];
      }
      if exists i, p :: Witness(rows, id2pubs, pub2ids, committee, key, i, p) {
        var i, p :| Witness(rows, id2pubs, pub2ids, committee, key, i, p);
        if i < n {
          assert Witness(init, id2pubs, pub2ids, committee, key, i, p);
        }
      }
    }
  }

  /** A committee member gets a conflict only if they are in `committee_ids` (line 52 never raises KeyError). */
  lemma ConflictsAreCommittee(rows: seq<Row>, id2pubs: map<string, set<string>>, pub2ids: map<string, set<string>>,
                              committee: set<string>, key: Key)
    requires AuthorRowsOk(rows, id2pubs, pub2ids)
    requires Expected(rows, id2pubs, pub2ids, committee, key) != multiset{}
    ensures key.1 in committee
  {
    ExpectedNonEmpty(rows, id2pubs, pub2ids, committee, key);
  }

  /**
    Self-conflicts are not excluded: an author row with id `c` in `id2pubs`,
    whose committee member `c` is listed among the authors of one of `c`'s
    publications, gives the key (its submission, `c`).
  */
  lemma SelfConflict(rows: seq<Row>, id2pubs: map<string, set<string>>, pub2ids: map<string, set<string>>,
                     committee: set<string>, i: int, p: string)
    requires AuthorRowsOk(rows, id2pubs, pub2ids) && 0 <= i < |rows| && Reaches(rows[i], id2pubs)
    requires var c := rows[i]["dblp_id"]; c in committee && p in id2pubs[c] && c in pub2ids[p]
    ensures Expected(rows, id2pubs, pub2ids, committee, (Get(rows[i], "submission #"), rows[i]["dblp_id"])) != multiset{}
  {
    var key := (Get(rows[i], "submission #"), rows[i]["dblp_id"]);
    assert Witness(rows, id2pubs, pub2ids, committee, key, i, p);
    ExpectedNonEmpty(rows, id2pubs, pub2ids, committee, key);
  }

  /** The order of `sorted` on the keys: by submission number, then by committee id, as strings. */
  predicate KeyLess(x: Key, y: Key) {
    StrLess(x.0, y.0) || (x.0 == y.0 && StrLess(x.1, y.1))
  }

  lemma KeyLessTransitive(x: Key, y: Key, z: Key)
    requires KeyLess(x, y) && KeyLess(y, z)
    ensures KeyLess(x, z)
  {
    if StrLess(x.0, y.0) && StrLess(y.0, z.0) {
      StrLessTransitive(x.0, y.0, z.0);
    } else if x.0 == y.0 && y.0 == z.0 {
      StrLessTransitive(x.1, y.1, z.1);
    }
  }

  lemma KeyLessTotal(x: Key, y: Key)
    ensures x == y || KeyLess(x, y) || KeyLess(y, x)
  {
    StrLessTotal(x.0, y.0);
    StrLessTotal(x.1, y.1);
  }

  lemma KeyLessIrreflexive(x: Key)
    ensures !KeyLess(x, x)
  {
    StrLessIrreflexive(x.0);
    StrLessIrreflexive(x.1);
  }

  predicate SortedKeys(s: seq<Key>) {
    forall i, j :: 0 <= i < j < |s| ==> KeyLess(s[i], s[j])
  }

  /** Inserts a new key into a sorted list at its place. */
  method InsertKey(s: seq<Key>, k: Key) returns (t: seq<Key>)
    requires SortedKeys(s) && k !in s
    ensures SortedKeys(t)
    ensures forall x :: x in t <==> x in s || x == k
    ensures |t| == |s| + 1
  {
    var j := 0;
    while j < |s| && KeyLess(s[j], k)
      invariant 0 <= j <= |s|
      invariant forall i :: 0 <= i < j ==> KeyLess(s[i], k)
    {
      j := j + 1;
    }
    forall m | j <= m < |s| ensures KeyLess(k, s[m]) {
      KeyLessTotal(s[j], k);
      if j < m {
        KeyLessTransitive(k, s[j], s[m]);
      }
    }
    t := s[..j] + [k] + s[j..];
    forall a, b | 0 <= a < b < |t| ensures KeyLess(t[a], t[b]) {
      if b == j {
        assert t[a] == s[a];
      } else if a == j {
        assert t[b] == s[b - 1];
      } else if a < j < b {
        assert t[a] == s[a] && t[b] == s[b - 1];
        KeyLessTransitive(s[a], k, s[b - 1]);
      } else if b < j {
        assert t[a] == s[a] && t[b] == s[b];
      } else {
        assert t[a] == s[a - 1] && t[b] == s[b - 1];
      }
    }
    assert forall x :: x in t <==> x in s[..j] || x == k || x in s[j..];
    assert s == s[..j] + s[j..];
  }

  /** `sorted(cois)`: the keys in increasing order, each once. */
  method SortKeys(keys: set<Key>) returns (s: seq<Key>)
    ensures SortedKeys(s)
    ensures forall k :: k in s <==> k in keys
    ensures |s| == |keys|
  {
    s := [];
    var remaining := keys;
    while remaining != {}
      invariant remaining <= keys && SortedKeys(s)
      invariant forall k :: k in s <==> k in keys && k !in remaining
      invariant |s| + |remaining| == |keys|
      decreases |remaining|
    {
      var k :| k in remaining;
      s := InsertKey(s, k);
      remaining := remaining - {k};
    }
  }

  /** One row of conflicts.csv (lines 54-59). */
  datatype ReportRow = ReportRow(memberNum: string, memberName: string, submission: string, details: string)

  /** Lines 51-59: one report row per key, in sorted order. */
  method Report(cois: map<Key, seq<string>>, committeeIds: map<string, string>, personNames: map<string, string>)
    returns (keys: seq<Key>, report: seq<ReportRow>)
    requires forall key :: key in cois ==> key.1 in committeeIds && committeeIds[key.1] in personNames
    ensures SortedKeys(keys) && (forall k :: k in keys <==> k in cois) && |keys| == |cois|
    ensures |report| == |keys|
    ensures forall i :: 0 <= i < |keys| ==>
              var c := keys[i].1;
              report[i] == ReportRow(committeeIds[c], personNames[committeeIds[c]], keys[i].0, Join("; ", cois[keys[i]]))
  {
    keys := SortKeys(cois.Keys);
    report := [];
    var i := 0;
    while i < |keys|
      invariant 0 <= i <= |keys| && |report| == i
      invariant forall j :: 0 <= j < i ==>
                  var c := keys[j].1;
                  report[j] == ReportRow(committeeIds[c], personNames[committeeIds[c]], keys[j].0, Join("; ", cois[keys[j]]))
    {
      var (submissionNum, committeeDblp) := keys[i];
      var committeeNum := committeeIds[committeeDblp];
      var committeeName := personNames[committeeNum];
      report := report + [ReportRow(committeeNum, committeeName, submissionNum, Join("; ", cois[keys[i]]))];
      i := i + 1;
    }
  }

  /**
    `main` of find_conflicts.py over given maps and rows: the justifications
    under every key are those the author rows call for, with their
    multiplicities; the report lists the keys in sorted order with the member's
    number and name and the '; '-joined justifications.
  */
  method FindConflicts(author2id: map<string, string>, author2pubs: map<string, set<string>>,
                       pub2authors: map<string, set<string>>, committeeRows: seq<Row>, authorRows: seq<Row>)
    returns (cois: map<Key, seq<string>>, keys: seq<Key>, report: seq<ReportRow>)
    requires AllPersonRows(committeeRows)
    requires AuthorRowsOk(authorRows, Id2Pubs(author2id, author2pubs), Pub2Ids(author2id, pub2authors))
    requires forall i :: 0 <= i < |authorRows| ==>
               SubmissionWhenConflict(authorRows[i], Id2Pubs(author2id, author2pubs), Pub2Ids(author2id, pub2authors),
                                      CommitteeIds(committeeRows, "dblp_id").Keys)
    ensures forall key :: Bag(cois, key) ==
              Expected(authorRows, Id2Pubs(author2id, author2pubs), Pub2Ids(author2id, pub2authors),
                       CommitteeIds(committeeRows, "dblp_id").Keys, key)
    ensures NoEmptyLists(cois)
    ensures SortedKeys(keys) && (forall k :: k in keys <==> k in cois) && |report| == |keys|
    ensures forall i :: 0 <= i < |keys| ==>
              var c := keys[i].1;
              && c in CommitteeIds(committeeRows, "dblp_id")
              && report[i].memberNum == CommitteeIds(committeeRows, "dblp_id")[c]
              && report[i].memberNum in PersonNames(committeeRows)
              && report[i].memberName == PersonNames(committeeRows)[report[i].memberNum]
              && report[i].submission == keys[i].0
              && report[i].details == Join("; ", cois[keys[i]])
  {
    var id2pubs := BuildId2Pubs(author2id, author2pubs);
    var pub2ids := BuildPub2Ids(author2id, pub2authors);
    var committeeIds, personNames := BuildCommittee(committeeRows, "dblp_id");
    cois := CollectConflicts(authorRows, id2pubs, pub2ids, committeeIds.Keys);
    forall key | key in cois ensures key.1 in committeeIds && committeeIds[key.1] in personNames {
      assert cois[key][0] in Bag(cois, key);
      ConflictsAreCommittee(authorRows, id2pubs, pub2ids, committeeIds.Keys, key);
      CommitteeNumbersNamed(committeeRows, "dblp_id", key.1);
    }
    keys, report := Report(cois, committeeIds, personNames);
  }
}
