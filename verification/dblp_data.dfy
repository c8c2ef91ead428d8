/**
  The corpus indexer of dblp_data.py: the entity table handed to the XML parser,
  and the single forward pass over the parsed elements that fills
  `authors` (author name -> publication keys) and `publications`
  (publication key -> author names).

  The gzip stream and the XML parser are not modelled: the pass reads the
  sequence of elements in the order their 'end' events arrive.
*/
module DblpData {
  import opened Wrappers
  import opened Seqs

  /**
    `parser.entity` once lines 26-27 have run: the standard table `std`, plus the
    invalid name `umml` bound to whatever `uuml` stands for. The standard table
    always has `uuml`; without it line 27 raises KeyError.
  */
  function ParserEntities(std: map<string, string>): (r: map<string, string>)
    requires "uuml" in std
    ensures r.Keys == std.Keys + {"umml"}
    ensures r["umml"] == r["uuml"] == std["uuml"]
    ensures forall k :: k in std && k != "umml" ==> k in r && r[k] == std[k]
  {
    std["umml" := std["uuml"]]
  }

  /**
    `CustomEntity.__getitem__`: the code point of a named entity, looking up
    `uuml` when asked for `umml`. A name missing from the table raises KeyError,
    here `None`.
  */
  function CustomEntityLookup(name2codepoint: map<string, nat>, key: string): (r: Option<nat>)
    ensures key == "umml" ==> (r.Some? <==> "uuml" in name2codepoint)
    ensures key == "umml" && r.Some? ==> r.value == name2codepoint["uuml"]
    ensures key != "umml" ==> (r.Some? <==> key in name2codepoint)
    ensures key != "umml" && r.Some? ==> r.value == name2codepoint[key]
  {
    var name := if key == "umml" then "uuml" else key;
    if name in name2codepoint then Some(name2codepoint[name]) else None
  }

  /** One parsed XML element: its tag, its `key` attribute and the texts of its `author` children. */
  datatype Element = Element(tag: string, key: Option<string>, authorTexts: seq<Option<string>>)

  /** The nine record kinds of line 100. */
  const RecordTags: set<string> :=
    {"article", "inproceedings", "proceedings", "book", "incollection",
     "phdthesis", "mastersthesis", "www", "data"}

  /** A record kind with a non-empty `key`: the only elements that touch the maps. */
  predicate Kept(e: Element) {
    e.tag in RecordTags && e.key.Some? && e.key.value != ""
  }

  /** `e` is kept and its key is `p`. */
  predicate HasKey(e: Element, p: string) {
    Kept(e) && e.key.value == p
  }

  /** `[a.text for a in elem.findall("author") if a.text]`: the non-empty texts, in order. */
  function AuthorNames(texts: seq<Option<string>>): (r: seq<string>)
    ensures |r| <= |texts|
    ensures forall n :: n in r ==> n != "" && Some(n) in texts
    ensures forall i :: 0 <= i < |texts| && texts[i].Some? && texts[i].value != "" ==> texts[i].value in r
    decreases |texts|
  {
    if texts == [] then []
    else (if texts[0].Some? && texts[0].value != "" then [texts[0].value] else []) + AuthorNames(texts[1..])
  }

  /** The two dictionaries the pass builds. */
  datatype Index = Index(authors: map<string, set<string>>, publications: map<string, set<string>>)

  /** Lines 108-110 for one name: create the name's set if it is missing, then add the key. */
  function AddPub(authors: map<string, set<string>>, name: string, key: string): map<string, set<string>> {
    authors[name := (if name in authors then authors[name] else {}) + {key}]
  }

  /** The loop of lines 107-110: `AddPub` for every listed name in turn. */
  function AddPubToAll(authors: map<string, set<string>>, names: seq<string>, key: string)
    : map<string, set<string>>
    decreases |names|
  {
    if names == [] then authors
    else AddPub(AddPubToAll(authors, names[..|names| - 1], key), names[|names| - 1], key)
  }

  /**
    After the loop of lines 107-110, every listed name has gained `key`, a name
    seen for the first time has an entry, and no other entry has changed.
  */
  lemma {:induction false} AddPubToAllSpec(authors: map<string, set<string>>, names: seq<string>, key: string)
    ensures AddPubToAll(authors, names, key).Keys == authors.Keys + set n | n in names
    ensures forall a :: a in AddPubToAll(authors, names, key) ==>
              AddPubToAll(authors, names, key)[a]
              == (if a in authors then authors[a] else {}) + (if a in names then {key} else {})
    decreases |names|
  {
    if names != [] {
      var init := names[..|names| - 1];
      AddPubToAllSpec(authors, init, key);
      assert forall n :: n in names <==> n in init || n == names[|names| - 1];
    }
  }

  /**
    One iteration of the loop of lines 97-113. Elements that are not records, and
    records without a key, leave both maps as they were.
  */
  function Step(ix: Index, e: Element): (r: Index)
    ensures !Kept(e) ==> r == ix
  {
    if Kept(e) then
      var names := AuthorNames(e.authorTexts);
      var key := e.key.value;
      Index(AddPubToAll(ix.authors, names, key), ix.publications[key := set n | n in names])
    else
      ix
  }

  /** The maps after the loop has consumed `es`, starting from two empty dictionaries. */
  function Fold(es: seq<Element>): Index
    decreases |es|
  {
    if es == [] then Index(map[], map[]) else Step(Fold(es[..|es| - 1]), es[|es| - 1])
  }

  /** The loop of lines 107-110, which adds `key` to the entry of every name in turn. */
  method AddKeyToAuthors(authors: map<string, set<string>>, authorNames: seq<string>, key: string)
    returns (r: map<string, set<string>>)
    ensures r == AddPubToAll(authors, authorNames, key)
  {
    r := authors;
    var j := 0;
    while j < |authorNames|
      invariant 0 <= j <= |authorNames|
      invariant r == AddPubToAll(authors, authorNames[..j], key)
    {
      var name := authorNames[j];
      ghost var before := r;
      if name !in r {
        r := r[name := {}];
      }
      r := r[name := r[name] + {key}];
      assert r == AddPub(before, name, key);
      TakeOneMore(authorNames, j);
      j := j + 1;
    }
    TakeAll(authorNames);
  }

  /** The pass over one more element is one more step. */
  lemma FoldPrefix(es: seq<Element>, i: nat)
    requires i < |es|
    ensures Fold(es[..i + 1]) == Step(Fold(es[..i]), es[i])
  {
    TakeOneMore(es, i);
  }

  /**
    `get_authors_and_pubs`. The first 'end' event is taken for the root by
    `next(context)` (line 95) and never looked at; the loop folds the rest.
    A well-formed document always yields at least one element.
  */
  method GetAuthorsAndPubs(events: seq<Element>)
    returns (authors: map<string, set<string>>, publications: map<string, set<string>>)
    requires |events| > 0
    ensures Index(authors, publications) == Fold(events[1..])
  {
    authors := map[];
    publications := map[];
    var records := events[1..];
    var i := 0;
    while i < |records|
      invariant 0 <= i <= |records|
      invariant Index(authors, publications) == Fold(records[..i])
    {
      var elem := records[i];
      FoldPrefix(records, i);
      if elem.tag in RecordTags {
        var pubKey := elem.key;
        if pubKey.Some? && pubKey.value != "" {
          var authorNames := AuthorNames(elem.authorTexts);
          publications := publications[pubKey.value := set n | n in authorNames];
          authors := AddKeyToAuthors(authors, authorNames, pubKey.value);
        }
      }
      i := i + 1;
    }
    TakeAll(records);
  }

  /**
    The invariant the pass keeps: every author listed under a publication lists
    that publication back, every author entry is a non-empty name with at least
    one key, and every key under an author is itself a publication.
  */
  ghost predicate Valid(ix: Index) {
    && (forall p, a :: p in ix.publications && a in ix.publications[p] ==>
          a in ix.authors && p in ix.authors[a])
    && (forall a :: a in ix.authors ==> a != "" && ix.authors[a] != {})
    && (forall a, p :: a in ix.authors && p in ix.authors[a] ==> p in ix.publications)
    && (forall p :: p in ix.publications ==> p != "")
  }

  lemma StepValid(ix: Index, e: Element)
    requires Valid(ix)
    ensures Valid(Step(ix, e))
  {
    if Kept(e) {
      var r := Step(ix, e);
      var names := AuthorNames(e.authorTexts);
      AddPubToAllSpec(ix.authors, names, e.key.value);
      forall p, a | p in r.publications && a in r.publications[p]
        ensures a in r.authors && p in r.authors[a]
      {
        if p == e.key.value {
          assert a in names;
        }
      }
    }
  }

  /** The invariant holds after every prefix of the pass. */
  lemma {:induction false} FoldValid(es: seq<Element>)
    ensures Valid(Fold(es))
    decreases |es|
  {
    if es != [] {
      FoldValid(es[..|es| - 1]);
      StepValid(Fold(es[..|es| - 1]), es[|es| - 1]);
    }
  }

  /**
    Nothing is ever taken out of `authors`, and no publication key disappears.
    (A repeated key replaces that publication's author set as a whole, so the
    sets under `publications` are not monotone; see PublicationOverwritten.)
  */
  ghost predicate Grows(x: Index, y: Index) {
    && (forall a :: a in x.authors ==> a in y.authors && x.authors[a] <= y.authors[a])
    && x.publications.Keys <= y.publications.Keys
  }

  lemma {:induction false} FoldGrows(es: seq<Element>, n: nat)
    requires n <= |es|
    ensures Grows(Fold(es[..n]), Fold(es))
    decreases |es| - n
  {
    if n < |es| {
      FoldGrows(es, n + 1);
      assert es[..n + 1][..n] == es[..n];
      var e := es[n];
      if Kept(e) {
        AddPubToAllSpec(Fold(es[..n]).authors, AuthorNames(e.authorTexts), e.key.value);
      }
    } else {
      assert es[..n] == es;
    }
  }

  /** A key is in `publications` exactly when some kept record carries it. */
  lemma {:induction false} FoldPublicationKeys(es: seq<Element>, p: string)
    ensures p in Fold(es).publications <==> exists i :: 0 <= i < |es| && HasKey(es[i], p)
    decreases |es|
  {
    if es != [] {
      var init := es[..|es| - 1];
      FoldPublicationKeys(init, p);
      if exists i :: 0 <= i < |init| && HasKey(init[i], p) {
        var i :| 0 <= i < |init| && HasKey(init[i], p);
        assert HasKey(es[i], p);
      }
      if exists i :: 0 <= i < |es| && HasKey(es[i], p) {
        var i :| 0 <= i < |es| && HasKey(es[i], p);
        if i < |init| {
          assert HasKey(init[i], p);
        }
      }
    }
  }

  /** One iteration adds `p` under `a` exactly when the element is a record with key `p` naming `a`. */
  lemma StepAuthors(ix: Index, e: Element, a: string, p: string)
    ensures (a in Step(ix, e).authors && p in Step(ix, e).authors[a]) <==>
            (a in ix.authors && p in ix.authors[a]) || (HasKey(e, p) && a in AuthorNames(e.authorTexts))
  {
    if Kept(e) {
      AddPubToAllSpec(ix.authors, AuthorNames(e.authorTexts), e.key.value);
    }
  }

  /** `p in authors[a]` exactly when some kept record with key `p` names `a` as an author. */
  lemma {:induction false} FoldAuthors(es: seq<Element>, a: string, p: string)
    ensures (a in Fold(es).authors && p in Fold(es).authors[a]) <==>
            exists i :: 0 <= i < |es| && HasKey(es[i], p) && a in AuthorNames(es[i].authorTexts)
    decreases |es|
  {
    if es != [] {
      var init := es[..|es| - 1];
      FoldAuthors(init, a, p);
      StepAuthors(Fold(init), es[|es| - 1], a, p);
      if exists i :: 0 <= i < |init| && HasKey(init[i], p) && a in AuthorNames(init[i].authorTexts) {
        var i :| 0 <= i < |init| && HasKey(init[i], p) && a in AuthorNames(init[i].authorTexts);
        assert es[i] == init[i];
      }
      if exists i :: 0 <= i < |es| && HasKey(es[i], p) && a in AuthorNames(es[i].authorTexts) {
        var i :| 0 <= i < |es| && HasKey(es[i], p) && a in AuthorNames(es[i].authorTexts);
        if i < |init| {
          assert init[i] == es[i];
        }
      }
    }
  }

  /** `publications[p]` is the author set of the LAST kept record with key `p`. */
  lemma {:induction false} FoldPublicationLast(es: seq<Element>, i: nat)
    requires i < |es| && Kept(es[i])
    requires forall j :: i < j < |es| ==> !HasKey(es[j], es[i].key.value)
    ensures es[i].key.value in Fold(es).publications
    ensures Fold(es).publications[es[i].key.value] == set n | n in AuthorNames(es[i].authorTexts)
    decreases |es|
  {
    if i < |es| - 1 {
      var init := es[..|es| - 1];
      FoldPublicationLast(init, i);
    }
  }

  /**
    When no key occurs twice, the converse of the first clause of Valid holds as
    well: `p in authors[a]` implies `a in publications[p]`.
  */
  lemma UniqueKeysConsistent(es: seq<Element>, a: string, p: string)
    requires forall i, j :: 0 <= i < j < |es| && Kept(es[i]) ==> !HasKey(es[j], es[i].key.value)
    requires a in Fold(es).authors && p in Fold(es).authors[a]
    ensures p in Fold(es).publications && a in Fold(es).publications[p]
  {
    FoldAuthors(es, a, p);
    var i :| 0 <= i < |es| && HasKey(es[i], p) && a in AuthorNames(es[i].authorTexts);
    FoldPublicationLast(es, i);
    assert a in AuthorNames(es[i].authorTexts);
  }

  /**
    With a repeated key the converse fails: the second record replaces the author
    set of `k`, while `authors` keeps the first record's author.
  */
  lemma PublicationOverwritten()
    ensures var ix := Fold([Element("article", Some("k"), [Some("A")]),
                            Element("article", Some("k"), [Some("B")])]);
            "k" in ix.authors["A"] && "A" !in ix.publications["k"]
  {
    var e1 := Element("article", Some("k"), [Some("A")]);
    var e2 := Element("article", Some("k"), [Some("B")]);
    var es := [e1, e2];
    assert AuthorNames(e1.authorTexts) == ["A"];
    assert AuthorNames(e2.authorTexts) == ["B"];
    assert es[..1] == [e1];
    assert [e1][..0] == [];
  }
}
