/**
  What the two name resolvers share: a CSV row as `csv.DictReader` yields it,
  the way they read a cell and a name from it, how they add a column to the
  header, and the candidate records the DBLP author service answers with.
*/
module CsvRows {
  import opened Wrappers
  import opened Text

  /** One CSV row: column name -> cell. */
  type Row = map<string, string>

  /** `row.get(k, '')`: a missing column reads as the empty string. */
  function Get(row: Row, k: string): string {
    if k in row then row[k] else ""
  }

  /** The truth value of `row.get(k)`: the column is there and not empty. */
  predicate Filled(row: Row, k: string) {
    Get(row, k) != ""
  }

  /** `(row.get('first name', '') + ' ' + row.get('last name', '')).strip()` */
  function FullName(row: Row): string {
    Strip(Get(row, "first name") + " " + Get(row, "last name"))
  }

  /**
    `if c not in fieldnames: fieldnames.append(c)`: the header keeps its columns
    in order and ends up holding `c`, gaining at most that one column.
  */
  function EnsureColumn(fields: seq<string>, c: string): (r: seq<string>)
    ensures c in r
    ensures fields <= r && |r| <= |fields| + 1
    ensures c in fields ==> r == fields
    ensures forall x :: x in r ==> x in fields || x == c
  {
    if c in fields then fields else fields + [c]
  }

  /** A row dictionary as the resolvers hold it: updated in place, cell by cell. */
  class CsvRow {
    var fields: Row

    constructor (fields: Row)
      ensures this.fields == fields
    {
      this.fields := fields;
    }
  }

  /** One author candidate of the DBLP service: its id (`docno`), its name and its affiliations. */
  datatype Candidate = Candidate(docno: string, author: string, affiliations: seq<string>)

  /**
    The row `matches.iloc[k]` picks among `n` candidates: pandas counts a negative
    `k` from the end; outside `-n <= k < n` it raises IndexError, here `None`.
  */
  function Position(n: nat, k: int): (r: Option<nat>)
    ensures r.Some? <==> -(n as int) <= k < n
    ensures r.Some? ==> r.value < n && (r.value == k || r.value == k + n)
  {
    if 0 <= k < n then Some(k) else if -(n as int) <= k < 0 then Some(k + n) else None
  }
}
