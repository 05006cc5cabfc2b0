/**
 * The masterfile encoder (`MasterfileGeneratorService`).
 *
 * It walks the publications, gives every new author id a short code built
 * from the initials of the display name (with the smallest free numeric
 * suffix on a clash), moves the protagonist to the front of that roster,
 * sorts the publications by year and writes one presence/absence line per
 * publication after a header that lists the roster.
 *
 * The roster is the service's mutable `masterAuthors` dictionary: a
 * JavaScript object, i.e. a map whose keys enumerate in insertion order.
 * It is modelled as the value type `Roster` held in a field of the class
 * `MasterfileGenerator`, which the methods reassign as the source does.
 */
module MasterfileGenerator {
  import opened Wrappers
  import opened Text
  import opened StableSort

  /** An author as the encoder receives it: a stable id and a display name. */
  datatype Author = Author(id: string, name: string)

  /** A publication: its year and its authors, in order. */
  datatype Publication = Publication(year: int, authors: seq<Author>)

  /** One value of the `masterAuthors` dictionary. */
  datatype MasterAuthor = MasterAuthor(abbreviation: string, fullName: string)

  /**
   * The `masterAuthors` dictionary: `order` is the enumeration order of its
   * keys (insertion order), `entries` the key/value pairs.
   */
  datatype Roster = Roster(order: seq<string>, entries: map<string, MasterAuthor>)
  {
    /** Every key is enumerated exactly once. */
    ghost predicate Valid() {
      && Distinct(order)
      && (forall id :: id in entries ==> id in order)
      && (forall id :: id in order ==> id in entries)
    }

    /** No two keys share an abbreviation. */
    ghost predicate UniqueAbbreviations() {
      forall a, b :: a in entries && b in entries && a != b ==>
        entries[a].abbreviation != entries[b].abbreviation
    }

    /** The set `new Set(Object.values(masterAuthors).map(a => a.abbreviation))`. */
    function AbbreviationSet(): set<string> {
      set id | id in entries :: entries[id].abbreviation
    }

    /** `Object.keys(masterAuthors).map(id => masterAuthors[id].abbreviation)`. */
    function Abbreviations(): seq<string>
      requires Valid()
    {
      AbbreviationsOf(this, order)
    }

    /** `masterAuthors[id] = e` for a key that is not yet present: appended last. */
    function Put(id: string, e: MasterAuthor): Roster {
      Roster(order + [id], entries[id := e])
    }

    /** `delete masterAuthors[id]`. */
    function Delete(id: string): Roster {
      Roster(Without(order, id), entries - {id})
    }

    /** `{ [id]: e, ...masterAuthors }` for a key that is not present: placed first. */
    function Prepend(id: string, e: MasterAuthor): Roster {
      Roster([id] + order, entries[id := e])
    }
  }

  const EmptyRoster := Roster([], map[])

  /** The abbreviations of the given keys, in the given order. */
  function AbbreviationsOf(r: Roster, ids: seq<string>): seq<string>
    requires forall id :: id in ids ==> id in r.entries
  {
    if ids == [] then []
    else AbbreviationsOf(r, ids[..|ids| - 1]) + [r.entries[ids[|ids| - 1]].abbreviation]
  }

  /** `s` with every occurrence of `x` removed, the rest in order. */
  function Without(s: seq<string>, x: string): seq<string>
  {
    if s == [] then []
    else Without(s[..|s| - 1], x) + (if s[|s| - 1] == x then [] else [s[|s| - 1]])
  }

  /** `sub` lists elements of `s` in the order in which they first occur in `s`. */
  ghost predicate InOrderOf(sub: seq<string>, s: seq<string>) {
    && (forall x :: x in sub ==> x in s)
    && (forall i, j :: 0 <= i < j < |sub| ==> IndexOf(s, sub[i]) < IndexOf(s, sub[j]))
  }

  /** Removing `x` keeps exactly the other elements. */
  lemma {:induction false} WithoutMembers(s: seq<string>, x: string)
    ensures x !in Without(s, x)
    ensures forall y :: y in Without(s, x) ==> y in s
    ensures forall y :: y in s && y != x ==> y in Without(s, x)
  {
    if s != [] {
      WithoutMembers(s[..|s| - 1], x);
      assert s == s[..|s| - 1] + [s[|s| - 1]];
    }
  }

  /** Removing an element that occurs once shortens the list by one. */
  lemma {:induction false} WithoutLength(s: seq<string>, x: string)
    requires Distinct(s)
    ensures |Without(s, x)| == if x in s then |s| - 1 else |s|
  {
    if s != [] {
      var init := s[..|s| - 1];
      assert s == init + [s[|s| - 1]];
      WithoutLength(init, x);
    }
  }

  /** Extending `s` at the end does not move the elements of `sub`. */
  lemma InOrderExtend(sub: seq<string>, s: seq<string>, last: string)
    requires InOrderOf(sub, s)
    ensures InOrderOf(sub, s + [last])
  {
    forall y | y in sub ensures IndexOf(s + [last], y) == IndexOf(s, y) {
      IndexOfAppend(s, last, y);
    }
  }

  /** A new last element of `s` may also close `sub`. */
  lemma InOrderSnoc(sub: seq<string>, s: seq<string>, last: string)
    requires InOrderOf(sub, s) && last !in s
    ensures InOrderOf(sub + [last], s + [last])
  {
    var t, u := s + [last], sub + [last];
    InOrderExtend(sub, s, last);
    assert t[|s|] == last;
    assert IndexOf(t, last) == |s|;
    forall i, j | 0 <= i < j < |u| ensures IndexOf(t, u[i]) < IndexOf(t, u[j]) {
      assert u[i] == sub[i] && sub[i] in sub;
      if j < |sub| {
        assert u[j] == sub[j];
      }
    }
  }

  /** Removing `x` keeps the other elements in their relative order. */
  lemma {:induction false} WithoutOrder(s: seq<string>, x: string)
    requires Distinct(s)
    ensures InOrderOf(Without(s, x), s)
  {
    WithoutMembers(s, x);
    if s != [] {
      var init, last := s[..|s| - 1], s[|s| - 1];
      assert s == init + [last];
      WithoutOrder(init, x);
      WithoutMembers(init, x);
      if last != x {
        assert last !in init;
        InOrderSnoc(Without(init, x), init, last);
      } else {
        InOrderExtend(Without(init, x), init, last);
      }
    }
  }

  /** `{ [id]: masterAuthors[id], ...(masterAuthors without id) }`. */
  function MoveToFront(r: Roster, id: string): Roster
    requires id in r.entries
  {
    r.Delete(id).Prepend(id, r.entries[id])
  }

  /** Deleting a key keeps the roster well formed. */
  lemma DeleteValid(r: Roster, id: string)
    requires r.Valid()
    ensures r.Delete(id).Valid()
    ensures id !in r.Delete(id).entries
  {
    var w := Without(r.order, id);
    WithoutMembers(r.order, id);
    WithoutOrder(r.order, id);
    forall i, j | 0 <= i < j < |w| ensures w[i] != w[j] {
      assert IndexOf(r.order, w[i]) < IndexOf(r.order, w[j]);
    }
  }

  /** Prepending a new key keeps the roster well formed. */
  lemma PrependValid(r: Roster, id: string, e: MasterAuthor)
    requires r.Valid() && id !in r.entries
    ensures r.Prepend(id, e).Valid()
  {
    var o := r.Prepend(id, e).order;
    forall i, j | 0 <= i < j < |o| ensures o[i] != o[j] {
      assert o[j] == r.order[j - 1];
      if i > 0 {
        assert o[i] == r.order[i - 1];
      }
    }
  }

  /**
   * Moving the protagonist to the front keeps every entry, puts the
   * protagonist first and the other keys after it in their previous order.
   */
  lemma MoveToFrontSpec(r: Roster, id: string)
    requires r.Valid() && id in r.entries
    ensures MoveToFront(r, id).Valid()
    ensures MoveToFront(r, id).entries == r.entries
    ensures |MoveToFront(r, id).order| == |r.order|
    ensures MoveToFront(r, id).order[0] == id
    ensures InOrderOf(MoveToFront(r, id).order[1..], r.order)
  {
    DeleteValid(r, id);
    PrependValid(r.Delete(id), id, r.entries[id]);
    WithoutLength(r.order, id);
    WithoutOrder(r.order, id);
    var m := MoveToFront(r, id);
    assert m.order[1..] == Without(r.order, id);
    assert m.entries == r.entries;
  }

  // ------------------------------------------------------------------ abbreviations

  /** `word.charAt(0).toUpperCase()`: nothing for an empty word. */
  function Initial(word: string): string {
    if word == [] then [] else [ToUpper(word[0])]
  }

  function Initials(words: seq<string>): string {
    if words == [] then [] else Initial(words[0]) + Initials(words[1..])
  }

  /** `fullName.split(' ').map(word => word.charAt(0).toUpperCase()).join('')`. */
  function BaseAbbreviation(fullName: string): string {
    Initials(Split(fullName, ' '))
  }

  /**
   * A reference reading of the base abbreviation, character by character:
   * the upper-cased characters that are not blanks and follow a blank or
   * the start of the name.
   */
  function InitialsScan(s: string, atWordStart: bool): string {
    if s == [] then []
    else (if atWordStart && s[0] != ' ' then [ToUpper(s[0])] else []) + InitialsScan(s[1..], s[0] == ' ')
  }

  lemma {:induction false} InitialsSplitScan(s: string)
    ensures Initials(Split(s, ' ')) == InitialsScan(s, true)
    ensures Initials(Split(s, ' ')[1..]) == InitialsScan(s, false)
    decreases |s|
  {
    if s != [] {
      InitialsSplitScan(s[1..]);
      var t := Split(s[1..], ' ');
      if s[0] == ' ' {
        assert Split(s, ' ') == [""] + t;
        assert Split(s, ' ')[1..] == t;
      } else {
        var r := Split(s, ' ');
        assert r == [[s[0]] + t[0]] + t[1..];
        assert r[1..] == t[1..];
        assert Initial(r[0]) == [ToUpper(s[0])];
      }
    }
  }

  /** The base abbreviation is the upper-cased first letter of every blank-separated word. */
  lemma BaseAbbreviationScans(fullName: string)
    ensures BaseAbbreviation(fullName) == InitialsScan(fullName, true)
  {
    InitialsSplitScan(fullName);
  }

  lemma {:induction false} InitialsScanNoBlank(s: string, atWordStart: bool)
    ensures ' ' !in InitialsScan(s, atWordStart)
    decreases |s|
  {
    if s != [] {
      InitialsScanNoBlank(s[1..], s[0] == ' ');
    }
  }

  /** The numbered variants `base1 .. basek`. */
  ghost function Numbered(base: string, k: nat): set<string> {
    set j | 1 <= j <= k :: base + NatToString(j)
  }

  /** Different suffixes give different codes. */
  lemma NumberedInjective(base: string, j: nat, k: nat)
    ensures j != k ==> base + NatToString(j) != base + NatToString(k)
  {
    if base + NatToString(j) == base + NatToString(k) {
      assert (base + NatToString(k))[|base|..] == NatToString(k);
      assert (base + NatToString(j))[|base|..] == NatToString(j);
      NatToStringInjective(j, k);
    }
  }

  lemma {:induction false} NumberedSize(base: string, k: nat)
    ensures |Numbered(base, k)| == k
  {
    if k > 0 {
      NumberedSize(base, k - 1);
      forall j | 1 <= j <= k - 1 ensures base + NatToString(j) != base + NatToString(k) {
        NumberedInjective(base, j, k);
      }
      assert Numbered(base, k) == Numbered(base, k - 1) + {base + NatToString(k)};
    }
  }

  /** If `base1 .. basek` are all taken, there are at least k taken abbreviations. */
  lemma TakenSuffixesBound(base: string, taken: set<string>, k: nat)
    requires forall j :: 1 <= j <= k ==> base + NatToString(j) in taken
    ensures k <= |taken|
  {
    NumberedSize(base, k);
    var n := Numbered(base, k);
    assert taken == n + (taken - n);
  }

  /** The smallest suffix `k' >= k` with `base + k'` free, given that `base1 .. base(k-1)` are taken. */
  function FirstFreeSuffix(base: string, taken: set<string>, k: nat): (r: nat)
    requires 1 <= k
    requires forall j :: 1 <= j < k ==> base + NatToString(j) in taken
    ensures k <= r && base + NatToString(r) !in taken
    ensures forall j :: 1 <= j < r ==> base + NatToString(j) in taken
    decreases |taken| + 1 - k
  {
    if base + NatToString(k) !in taken then k
    else
      TakenSuffixesBound(base, taken, k);
      FirstFreeSuffix(base, taken, k + 1)
  }

  /**
   * The abbreviation `generateAbbreviation` returns when `taken` holds the
   * abbreviations already assigned: the base if it is free, otherwise the
   * base followed by the smallest positive number that gives a free code.
   */
  function Abbreviate(base: string, taken: set<string>): (abbr: string)
    ensures abbr !in taken
    ensures base !in taken ==> abbr == base
    ensures base in taken ==>
      exists k :: 1 <= k && abbr == base + NatToString(k) &&
        forall j :: 1 <= j < k ==> base + NatToString(j) in taken
  {
    if base !in taken then base else base + NatToString(FirstFreeSuffix(base, taken, 1))
  }

  // ------------------------------------------------------------------ roster

  /** The ids of a list of authors, in order. */
  function Ids(authors: seq<Author>): seq<string> {
    seq(|authors|, i requires 0 <= i < |authors| => authors[i].id)
  }

  lemma IdsLast(authors: seq<Author>)
    requires authors != []
    ensures Ids(authors) == Ids(authors[..|authors| - 1]) + [authors[|authors| - 1].id]
  {
    var init := authors[..|authors| - 1];
    assert forall i | 0 <= i < |init| :: Ids(authors)[i] == Ids(init)[i];
  }

  /** All authors of all publications, publication by publication. */
  function Flatten(pubs: seq<Publication>): seq<Author> {
    if pubs == [] then [] else Flatten(pubs[..|pubs| - 1]) + pubs[|pubs| - 1].authors
  }

  /** One step of the roster loop: an unseen id gets an entry with a fresh abbreviation. */
  function AddAuthor(r: Roster, a: Author): Roster {
    if a.id in r.entries then r
    else r.Put(a.id, MasterAuthor(Abbreviate(BaseAbbreviation(a.name), r.AbbreviationSet()), a.name))
  }

  /** The roster after the loop has visited `authors` in order, starting from an empty one. */
  function RosterOf(authors: seq<Author>): Roster {
    if authors == [] then EmptyRoster
    else AddAuthor(RosterOf(authors[..|authors| - 1]), authors[|authors| - 1])
  }

  /** The roster built from all publications, in input order. */
  function BuildRoster(pubs: seq<Publication>): Roster {
    RosterOf(Flatten(pubs))
  }

  lemma RosterOfSnoc(authors: seq<Author>, a: Author)
    ensures RosterOf(authors + [a]) == AddAuthor(RosterOf(authors), a)
  {
    assert (authors + [a])[..|authors|] == authors;
  }

  lemma RosterOfPrefixStep(seen: seq<Author>, authors: seq<Author>, k: nat)
    requires k < |authors|
    ensures RosterOf(seen + authors[..k + 1]) == AddAuthor(RosterOf(seen + authors[..k]), authors[k])
  {
    assert seen + authors[..k + 1] == (seen + authors[..k]) + [authors[k]];
    RosterOfSnoc(seen + authors[..k], authors[k]);
  }

  lemma FlattenSnoc(pubs: seq<Publication>, p: nat)
    requires p < |pubs|
    ensures Flatten(pubs[..p + 1]) == Flatten(pubs[..p]) + pubs[p].authors
  {
    assert pubs[..p + 1][..p] == pubs[..p];
  }

  /**
   * The roster has one entry per author id that occurs, and its keys are
   * the ids in order of first appearance.
   */
  lemma {:induction false} RosterOfKeys(authors: seq<Author>)
    ensures RosterOf(authors).Valid()
    ensures forall id :: id in RosterOf(authors).entries ==> id in Ids(authors)
    ensures forall id :: id in Ids(authors) ==> id in RosterOf(authors).entries
    ensures RosterOf(authors).order == Dedup(Ids(authors))
  {
    if authors != [] {
      var init, a := authors[..|authors| - 1], authors[|authors| - 1];
      RosterOfKeys(init);
      var r0 := RosterOf(init);
      var ids0 := Ids(init);
      IdsLast(authors);
      DedupSpec(ids0);
      if a.id !in r0.entries {
        assert a.id !in Dedup(ids0);
        assert Distinct(r0.order + [a.id]);
      }
    }
  }

  /** Every entry carries the name of the first author with that id. */
  lemma {:induction false} RosterOfNames(authors: seq<Author>)
    ensures forall id :: id in RosterOf(authors).entries ==> id in Ids(authors)
    ensures forall id :: id in RosterOf(authors).entries ==>
              RosterOf(authors).entries[id].fullName == authors[IndexOf(Ids(authors), id)].name
  {
    RosterOfKeys(authors);
    if authors != [] {
      var init, a := authors[..|authors| - 1], authors[|authors| - 1];
      RosterOfNames(init);
      RosterOfKeys(init);
      var r0 := RosterOf(init);
      var ids0 := Ids(init);
      var r := RosterOf(authors);
      IdsLast(authors);
      forall id | id in r.entries ensures r.entries[id].fullName == authors[IndexOf(Ids(authors), id)].name {
        if id in r0.entries {
          IndexOfAppend(ids0, a.id, id);
          assert authors[IndexOf(ids0, id)] == init[IndexOf(ids0, id)];
        } else {
          assert id == a.id && id !in ids0;
          assert IndexOf(Ids(authors), id) == |init|;
        }
      }
    }
  }

  /** A fresh abbreviation contains no blank. */
  lemma AbbreviateNoBlank(name: string, taken: set<string>)
    ensures ' ' !in Abbreviate(BaseAbbreviation(name), taken)
  {
    var base := BaseAbbreviation(name);
    BaseAbbreviationScans(name);
    InitialsScanNoBlank(name, true);
    if base in taken {
      var k :| 1 <= k && Abbreviate(base, taken) == base + NatToString(k);
      assert ' ' !in NatToString(k);
    }
  }

  /** No two entries share an abbreviation, and no abbreviation contains a blank. */
  lemma {:induction false} RosterOfAbbreviations(authors: seq<Author>)
    ensures RosterOf(authors).UniqueAbbreviations()
    ensures forall id :: id in RosterOf(authors).entries ==> ' ' !in RosterOf(authors).entries[id].abbreviation
  {
    if authors != [] {
      var init, a := authors[..|authors| - 1], authors[|authors| - 1];
      RosterOfAbbreviations(init);
      var r0 := RosterOf(init);
      if a.id !in r0.entries {
        var abbr := Abbreviate(BaseAbbreviation(a.name), r0.AbbreviationSet());
        AbbreviateNoBlank(a.name, r0.AbbreviationSet());
        forall id | id in r0.entries ensures r0.entries[id].abbreviation != abbr {
          assert r0.entries[id].abbreviation in r0.AbbreviationSet();
        }
      }
    }
  }

  /** The roster built from all authors satisfies every property above. */
  lemma RosterOfSpec(authors: seq<Author>)
    ensures RosterOf(authors).Valid()
    ensures RosterOf(authors).UniqueAbbreviations()
    ensures forall id :: id in RosterOf(authors).entries <==> id in Ids(authors)
  {
    RosterOfKeys(authors);
    RosterOfAbbreviations(authors);
  }

  /** Every author of every publication is in the flattened list, and nothing else is. */
  lemma {:induction false} FlattenSpec(pubs: seq<Publication>)
    ensures forall p, a :: 0 <= p < |pubs| && a in pubs[p].authors ==> a in Flatten(pubs)
    ensures forall a :: a in Flatten(pubs) ==> exists p :: 0 <= p < |pubs| && a in pubs[p].authors
  {
    if pubs != [] {
      FlattenSpec(pubs[..|pubs| - 1]);
    }
  }

  /**
   * After the roster loop, exactly the author ids that occur in the
   * publications have an entry, and the abbreviations are pairwise distinct.
   */
  lemma BuildRosterCovers(pubs: seq<Publication>)
    ensures forall p, a :: 0 <= p < |pubs| && a in pubs[p].authors ==> a.id in BuildRoster(pubs).entries
    ensures forall id :: id in BuildRoster(pubs).entries ==>
              exists p, a :: 0 <= p < |pubs| && a in pubs[p].authors && a.id == id
    ensures BuildRoster(pubs).UniqueAbbreviations()
  {
    var all := Flatten(pubs);
    FlattenSpec(pubs);
    RosterOfSpec(all);
    forall p, a | 0 <= p < |pubs| && a in pubs[p].authors
      ensures a.id in BuildRoster(pubs).entries
    {
      assert a in all;
      var i :| 0 <= i < |all| && all[i] == a;
      assert Ids(all)[i] == a.id;
    }
    forall id | id in BuildRoster(pubs).entries
      ensures exists p, a :: 0 <= p < |pubs| && a in pubs[p].authors && a.id == id
    {
      var i := IndexOf(Ids(all), id);
      assert all[i] in all;
    }
  }

  // ------------------------------------------------------------------ publication lines

  /** The abbreviations pushed into `present`, one per author found in the roster. */
  function PresentRaw(r: Roster, authors: seq<Author>): seq<string> {
    if authors == [] then []
    else
      var a := authors[|authors| - 1];
      PresentRaw(r, authors[..|authors| - 1]) + (if a.id in r.entries then [r.entries[a.id].abbreviation] else [])
  }

  /** `present` after `Array.from(new Set(present))`. */
  function Present(r: Roster, pub: Publication): seq<string> {
    Dedup(PresentRaw(r, pub.authors))
  }

  /** `ids.filter(id => present.indexOf(abbr(id)) === -1).map(abbr)`. */
  function MissingFrom(r: Roster, ids: seq<string>, present: seq<string>): (missing: seq<string>)
    requires forall id :: id in ids ==> id in r.entries
    ensures forall x :: x in missing ==> x in AbbreviationsOf(r, ids) && x !in present
  {
    if ids == [] then []
    else
      var abbr := r.entries[ids[|ids| - 1]].abbreviation;
      MissingFrom(r, ids[..|ids| - 1], present) + (if abbr in present then [] else [abbr])
  }

  /** The roster abbreviations that are not present, in roster order. */
  function Missing(r: Roster, present: seq<string>): seq<string>
    requires r.Valid()
  {
    MissingFrom(r, r.order, present)
  }

  /** `t<year> : <present>[;<missing>] : <all>`. */
  function PubLine(r: Roster, pub: Publication): string
    requires r.Valid()
  {
    var present := Present(r, pub);
    var missing := Missing(r, present);
    "t" + IntToString(pub.year) + " : " + Join(present, ",")
      + (if |missing| > 0 then ";" + Join(missing, ";") else "")
      + " : " + Join(r.Abbreviations(), ",")
  }

  /** One line per publication, in the order given. */
  function PubLines(r: Roster, pubs: seq<Publication>): seq<string>
    requires r.Valid()
  {
    seq(|pubs|, i requires 0 <= i < |pubs| => PubLine(r, pubs[i]))
  }

  lemma {:induction false} AbbreviationsOfSpec(r: Roster, ids: seq<string>)
    requires forall id :: id in ids ==> id in r.entries
    ensures |AbbreviationsOf(r, ids)| == |ids|
    ensures forall i :: 0 <= i < |ids| ==> AbbreviationsOf(r, ids)[i] == r.entries[ids[i]].abbreviation
  {
    if ids != [] {
      AbbreviationsOfSpec(r, ids[..|ids| - 1]);
    }
  }

  lemma {:induction false} MissingFromSpec(r: Roster, ids: seq<string>, present: seq<string>)
    requires forall id :: id in ids ==> id in r.entries
    ensures forall x :: x in MissingFrom(r, ids, present) ==> x in AbbreviationsOf(r, ids) && x !in present
    ensures forall x :: x in AbbreviationsOf(r, ids) && x !in present ==> x in MissingFrom(r, ids, present)
    ensures Distinct(AbbreviationsOf(r, ids)) ==> Distinct(MissingFrom(r, ids, present))
  {
    if ids != [] {
      var init := ids[..|ids| - 1];
      MissingFromSpec(r, init, present);
      var all := AbbreviationsOf(r, ids);
      if Distinct(all) {
        assert AbbreviationsOf(r, init) == all[..|all| - 1];
        assert Distinct(AbbreviationsOf(r, init));
      }
    }
  }

  /** The missing abbreviations come in roster order. */
  lemma {:induction false} MissingFromOrder(r: Roster, ids: seq<string>, present: seq<string>)
    requires forall id :: id in ids ==> id in r.entries
    requires Distinct(AbbreviationsOf(r, ids))
    ensures forall i, j :: 0 <= i < j < |MissingFrom(r, ids, present)| ==>
              IndexOf(AbbreviationsOf(r, ids), MissingFrom(r, ids, present)[i])
                < IndexOf(AbbreviationsOf(r, ids), MissingFrom(r, ids, present)[j])
  {
    if ids != [] {
      var init := ids[..|ids| - 1];
      var all, before := AbbreviationsOf(r, ids), AbbreviationsOf(r, init);
      var abbr := r.entries[ids[|ids| - 1]].abbreviation;
      assert all == before + [abbr];
      assert before == all[..|all| - 1];
      assert Distinct(before);
      MissingFromOrder(r, init, present);
      MissingFromSpec(r, init, present);
      var m := MissingFrom(r, init, present);
      forall x | x in m ensures IndexOf(all, x) == IndexOf(before, x) {
        IndexOfAppend(before, abbr, x);
      }
      if abbr !in present {
        forall k | 0 <= k < |before| ensures before[k] != abbr {
          assert all[k] == before[k] && all[|before|] == abbr;
          assert all[k] != all[|before|];
        }
        assert all[|before|] == abbr;
        assert IndexOf(all, abbr) == |before|;
        var m' := m + [abbr];
        assert MissingFrom(r, ids, present) == m';
        forall i, j | 0 <= i < j < |m'| ensures IndexOf(all, m'[i]) < IndexOf(all, m'[j]) {
          var x := m[i];
          assert m'[i] == x && x in m && x in before;
          if j < |m| {
            assert m'[j] == m[j] && m[j] in m;
          } else {
            assert m'[j] == abbr;
            assert IndexOf(before, x) < |before|;
          }
        }
      } else {
        assert MissingFrom(r, ids, present) == m;
      }
    }
  }

  /** `present` holds the abbreviation of every author of the publication that has an entry, and nothing else. */
  lemma {:induction false} PresentRawSpec(r: Roster, authors: seq<Author>)
    ensures forall x :: x in PresentRaw(r, authors) ==>
              exists a :: a in authors && a.id in r.entries && r.entries[a.id].abbreviation == x
    ensures forall a :: a in authors && a.id in r.entries ==> r.entries[a.id].abbreviation in PresentRaw(r, authors)
  {
    if authors != [] {
      var init := authors[..|authors| - 1];
      PresentRawSpec(r, init);
      assert authors == init + [authors[|authors| - 1]];
    }
  }

  /** The presence list of a line, after de-duplication, still holds exactly those abbreviations. */
  lemma PresentSpec(r: Roster, pub: Publication)
    ensures Distinct(Present(r, pub))
    ensures forall x :: x in Present(r, pub) ==>
              exists a :: a in pub.authors && a.id in r.entries && r.entries[a.id].abbreviation == x
    ensures forall a :: a in pub.authors && a.id in r.entries ==> r.entries[a.id].abbreviation in Present(r, pub)
    ensures forall i, j :: 0 <= i < j < |Present(r, pub)| ==>
              IndexOf(PresentRaw(r, pub.authors), Present(r, pub)[i])
                < IndexOf(PresentRaw(r, pub.authors), Present(r, pub)[j])
  {
    PresentRawSpec(r, pub.authors);
    DedupSpec(PresentRaw(r, pub.authors));
  }

  /** With distinct keys and abbreviations, the abbreviation list is duplicate-free. */
  lemma AbbreviationsDistinct(r: Roster)
    requires r.Valid() && r.UniqueAbbreviations()
    ensures Distinct(r.Abbreviations())
    ensures forall id :: id in r.entries ==> r.entries[id].abbreviation in r.Abbreviations()
  {
    AbbreviationsOfSpec(r, r.order);
    forall id | id in r.entries ensures r.entries[id].abbreviation in r.Abbreviations() {
      var i := IndexOf(r.order, id);
      assert r.Abbreviations()[i] == r.entries[id].abbreviation;
    }
  }

  /**
   * On every line, `present` and `missing` are duplicate-free, disjoint, and
   * together hold exactly the roster's abbreviations.
   */
  lemma PresentMissingPartition(r: Roster, pub: Publication)
    requires r.Valid() && r.UniqueAbbreviations()
    ensures Distinct(Present(r, pub))
    ensures Distinct(Missing(r, Present(r, pub)))
    ensures forall x :: x in Present(r, pub) ==> x in r.Abbreviations() && x !in Missing(r, Present(r, pub))
    ensures forall x :: x in Missing(r, Present(r, pub)) ==> x in r.Abbreviations()
    ensures forall x :: x in r.Abbreviations() ==> x in Present(r, pub) || x in Missing(r, Present(r, pub))
    ensures |Present(r, pub)| + |Missing(r, Present(r, pub))| == |r.Abbreviations()|
  {
    var present := Present(r, pub);
    var missing := Missing(r, present);
    var all := r.Abbreviations();
    DedupSpec(PresentRaw(r, pub.authors));
    PresentRawSpec(r, pub.authors);
    AbbreviationsDistinct(r);
    MissingFromSpec(r, r.order, present);
    DistinctPartitionSize(present, missing, all);
  }

  /** Two disjoint duplicate-free lists that together make up a duplicate-free list have its length. */
  lemma DistinctPartitionSize(a: seq<string>, b: seq<string>, c: seq<string>)
    requires Distinct(a) && Distinct(b) && Distinct(c)
    requires forall x :: x in a ==> x in c && x !in b
    requires forall x :: x in b ==> x in c
    requires forall x :: x in c ==> x in a || x in b
    ensures |a| + |b| == |c|
  {
    DistinctCard(a);
    DistinctCard(b);
    DistinctCard(c);
    assert (set x | x in c) == (set x | x in a) + (set x | x in b);
  }

  lemma {:induction false} DistinctCard(s: seq<string>)
    requires Distinct(s)
    ensures |set x | x in s| == |s|
  {
    if s != [] {
      var init := s[..|s| - 1];
      DistinctCard(init);
      assert (set x | x in s) == (set x | x in init) + {s[|s| - 1]};
    }
  }

  // ------------------------------------------------------------------ sorting

  /** The sort key of `publications.sort((a, b) => a.year - b.year)`. */
  function ByYear(p: Publication): int {
    p.year
  }

  // ------------------------------------------------------------------ header and whole file

  /**
   * The statistics object the header reads. Number formatting by
   * `toFixed(2)` and `JSON.stringify` are kept as the strings they produce.
   * `papers` and `distinctCoauthors` are the fields `meta.stats.papers` and
   * `meta.stats.distinctCoauthors`; `None` is JavaScript's `undefined`.
   */
  datatype Meta = Meta(
    generatedAt: string,
    filtersJson: string,
    papers: Option<int>,
    distinctCoauthors: Option<int>,
    avgInSetFixed2: string,
    avgGlobalFixed2: string,
    byType: seq<(string, int)>)

  /** A number in a template literal; `undefined` when the field is absent. */
  function Show(v: Option<int>): string {
    match v
    case None => "undefined"
    case Some(n) => IntToString(n)
  }

  /** `Object.entries(byType).map(([t, c]) => `${c} ${t}`)`. */
  function BreakdownItems(byType: seq<(string, int)>): seq<string> {
    seq(|byType|, i requires 0 <= i < |byType| => IntToString(byType[i].1) + " " + byType[i].0)
  }

  const Banner := "* Generated using the DBLP Master-Generator inspired by Tim Hegemann"

  function MetaLines(m: Meta): seq<string> {
    [ "* Generated at: " + m.generatedAt,
      "* Filters: " + m.filtersJson,
      "* Papers: " + Show(m.papers) + ", Distinct coauthors: " + Show(m.distinctCoauthors),
      "* Avg coauthor strength in set: " + m.avgInSetFixed2,
      "* Avg coauthor strength global: " + m.avgGlobalFixed2,
      "* Breakdown: " + Join(BreakdownItems(m.byType), ", ") ]
  }

  function MainAuthorLine(name: string): string {
    "* Main Author: " + name
  }

  /** `<abbreviation> <fullName>`. */
  function RosterLine(e: MasterAuthor): string {
    e.abbreviation + " " + e.fullName
  }

  function ProtagonistLine(abbreviation: string): string {
    abbreviation + " Protagonist"
  }

  /** One roster line for each given key, in order. */
  function RosterLines(r: Roster, ids: seq<string>): seq<string>
    requires forall id :: id in ids ==> id in r.entries
  {
    seq(|ids|, k requires 0 <= k < |ids| => RosterLine(r.entries[ids[k]]))
  }

  lemma RosterLinesPrefix(r: Roster, ids: seq<string>, j: nat)
    requires j < |ids| && forall id :: id in ids ==> id in r.entries
    ensures RosterLines(r, ids[..j + 1]) == RosterLines(r, ids[..j]) + [RosterLine(r.entries[ids[j]])]
  {
    assert forall k | 0 <= k < j :: RosterLines(r, ids[..j + 1])[k] == RosterLines(r, ids[..j])[k];
  }

  function HeaderLines(r: Roster, mainId: string, meta: Option<Meta>): seq<string>
    requires r.Valid() && mainId in r.entries
  {
    [Banner, MainAuthorLine(r.entries[mainId].fullName)]
      + (if meta.Some? then MetaLines(meta.value) else [])
      + RosterLines(r, r.order)
      + ["", ProtagonistLine(r.entries[mainId].abbreviation), ""]
  }

  /**
   * The text `generateMasterfileLines` returns: nothing when the protagonist
   * has no entry, otherwise the header followed by one line per publication
   * in ascending year order.
   */
  function MasterfileLines(pubs: seq<Publication>, mainId: string, meta: Option<Meta>): seq<string>
  {
    var built := BuildRoster(pubs);
    if mainId !in built.entries then []
    else
      RosterOfSpec(Flatten(pubs));
      MoveToFrontSpec(built, mainId);
      var r := MoveToFront(built, mainId);
      HeaderLines(r, mainId, meta) + PubLines(r, SortBy(pubs, ByYear))
  }

  /** The protagonist's roster: built from the input, protagonist moved first. */
  function FinalRoster(pubs: seq<Publication>, mainId: string): Roster
    requires mainId in BuildRoster(pubs).entries
  {
    MoveToFront(BuildRoster(pubs), mainId)
  }

  /** A roster line splits back into the abbreviation (up to the first blank) and the full name. */
  lemma RosterLineDecodes(e: MasterAuthor)
    requires ' ' !in e.abbreviation
    ensures Split(RosterLine(e), ' ')[0] == e.abbreviation
    ensures RosterLine(e)[|e.abbreviation| + 1..] == e.fullName
  {
    SplitAround(e.abbreviation, e.fullName, ' ');
    SplitWithoutSeparator(e.abbreviation, ' ');
    assert RosterLine(e) == e.abbreviation + [' '] + e.fullName;
  }

  /** Every roster line of the output decodes to its entry. */
  lemma RosterLinesDecode(pubs: seq<Publication>, mainId: string)
    requires mainId in BuildRoster(pubs).entries
    ensures forall id :: id in FinalRoster(pubs, mainId).entries ==>
              var e := FinalRoster(pubs, mainId).entries[id];
              Split(RosterLine(e), ' ')[0] == e.abbreviation && RosterLine(e)[|e.abbreviation| + 1..] == e.fullName
  {
    RosterOfSpec(Flatten(pubs));
    RosterOfAbbreviations(Flatten(pubs));
    MoveToFrontSpec(BuildRoster(pubs), mainId);
    forall id | id in FinalRoster(pubs, mainId).entries
      ensures var e := FinalRoster(pubs, mainId).entries[id];
              Split(RosterLine(e), ' ')[0] == e.abbreviation && RosterLine(e)[|e.abbreviation| + 1..] == e.fullName
    {
      RosterLineDecodes(FinalRoster(pubs, mainId).entries[id]);
    }
  }

  /** The output is empty exactly when the protagonist is an author of none of the publications. */
  lemma MasterfileEmptyIff(pubs: seq<Publication>, mainId: string, meta: Option<Meta>)
    ensures MasterfileLines(pubs, mainId, meta) == [] <==>
              forall p, a :: 0 <= p < |pubs| && a in pubs[p].authors ==> a.id != mainId
  {
    BuildRosterCovers(pubs);
  }

  /**
   * The header lines: banner, main author, six statistics lines when
   * present, one line per roster entry in key order, a blank, the
   * protagonist line and a blank.
   */
  lemma HeaderLinesLayout(r: Roster, mainId: string, meta: Option<Meta>)
    requires r.Valid() && mainId in r.entries
    ensures var out := HeaderLines(r, mainId, meta);
            var m := if meta.Some? then 6 else 0;
            && |out| == 2 + m + |r.order| + 3
            && out[0] == Banner
            && out[1] == MainAuthorLine(r.entries[mainId].fullName)
            && (meta.Some? ==> out[2..8] == MetaLines(meta.value))
            && (forall k :: 0 <= k < |r.order| ==> out[2 + m + k] == RosterLine(r.entries[r.order[k]]))
            && out[2 + m + |r.order|] == ""
            && out[3 + m + |r.order|] == ProtagonistLine(r.entries[mainId].abbreviation)
            && out[4 + m + |r.order|] == ""
  {
    var m := if meta.Some? then 6 else 0;
    var out := HeaderLines(r, mainId, meta);
    var first := [Banner, MainAuthorLine(r.entries[mainId].fullName)] + (if meta.Some? then MetaLines(meta.value) else []);
    assert |first| == 2 + m;
    assert out == first + RosterLines(r, r.order) + ["", ProtagonistLine(r.entries[mainId].abbreviation), ""];
  }

  /**
   * A non-empty masterfile is the header of the final roster (protagonist
   * first, otherwise first-appearance order) followed by one line per
   * publication in stable ascending year order.
   */
  lemma MasterfileLayout(pubs: seq<Publication>, mainId: string, meta: Option<Meta>)
    requires mainId in BuildRoster(pubs).entries
    ensures FinalRoster(pubs, mainId).Valid()
    ensures FinalRoster(pubs, mainId).order[0] == mainId
    ensures |MasterfileLines(pubs, mainId, meta)| >= |pubs|
    ensures MasterfileLines(pubs, mainId, meta)[..|MasterfileLines(pubs, mainId, meta)| - |pubs|]
            == HeaderLines(FinalRoster(pubs, mainId), mainId, meta)
    ensures MasterfileLines(pubs, mainId, meta)[|MasterfileLines(pubs, mainId, meta)| - |pubs|..]
            == PubLines(FinalRoster(pubs, mainId), SortBy(pubs, ByYear))
  {
    RosterOfSpec(Flatten(pubs));
    MoveToFrontSpec(BuildRoster(pubs), mainId);
    SortBySpec(pubs, ByYear);
    var r := FinalRoster(pubs, mainId);
    var header := HeaderLines(r, mainId, meta);
    var out := MasterfileLines(pubs, mainId, meta);
    assert out == header + PubLines(r, SortBy(pubs, ByYear));
  }

  /** The base abbreviation of a two-word name is its two upper-cased initials. */
  lemma TwoWordBase(first: string, last: string)
    requires first != [] && last != [] && ' ' !in first && ' ' !in last
    ensures BaseAbbreviation(first + " " + last) == [ToUpper(first[0]), ToUpper(last[0])]
  {
    assert first + " " + last == first + [' '] + last;
    SplitAround(first, last, ' ');
    SplitWithoutSeparator(first, ' ');
    SplitWithoutSeparator(last, ' ');
    assert Split(first + " " + last, ' ') == [first, last];
    assert [first, last][1..] == [last];
    assert [last][1..] == [];
    assert Initials([last]) == Initial(last);
  }

  /** The initials of the two sample names of the collision scenario. */
  lemma SampleBases()
    ensures BaseAbbreviation("John Smith") == "JS"
    ensures BaseAbbreviation("Jane Sun") == "JS"
  {
    JohnSmithBase();
    JaneSunBase();
  }

  lemma JohnSmithBase()
    ensures BaseAbbreviation("John Smith") == "JS"
  {
    TwoWordBase("John", "Smith");
    assert "John" + " " + "Smith" == "John Smith";
  }

  lemma JaneSunBase()
    ensures BaseAbbreviation("Jane Sun") == "JS"
  {
    TwoWordBase("Jane", "Sun");
    assert "Jane" + " " + "Sun" == "Jane Sun";
  }

  /** The first author of the collision scenario keeps the bare initials. */
  lemma SampleFirstRoster()
    ensures RosterOf([Author("a", "John Smith")]) == Roster(["a"], map["a" := MasterAuthor("JS", "John Smith")])
  {
    SampleBases();
    assert [Author("a", "John Smith")][..0] == [];
  }

  /** Two authors with the same initials: the one seen second gets the first numbered code. */
  lemma ClashGetsNumber()
    ensures RosterOf([Author("a", "John Smith"), Author("b", "Jane Sun")]).entries["a"].abbreviation == "JS"
    ensures RosterOf([Author("a", "John Smith"), Author("b", "Jane Sun")]).entries["b"].abbreviation == "JS1"
  {
    var john, jane := Author("a", "John Smith"), Author("b", "Jane Sun");
    SampleBases();
    SampleFirstRoster();
    var first := RosterOf([john]);
    assert forall id | id in first.entries :: id == "a";
    assert first.AbbreviationSet() == {"JS"};
    assert NatToString(1) == "1";
    assert "JS" + "1" == "JS1";
    assert FirstFreeSuffix("JS", {"JS"}, 1) == 1;
    assert [john, jane][..1] == [john];
  }

  // The two-publication scenario: "Ann Bee" (p1) writes alone in 2019 and
  // with "Cy Dee" (c1) in 2020; the 2020 paper comes first in the input.

  const Ann := Author("p1", "Ann Bee")
  const Cy := Author("c1", "Cy Dee")
  const Paper2020 := Publication(2020, [Ann, Cy])
  const Paper2019 := Publication(2019, [Ann])
  const AnnOnly := Roster(["p1"], map["p1" := MasterAuthor("AB", "Ann Bee")])
  /** The expected roster: p1 coded AB, then c1 coded CD. */
  const SampleRoster := Roster(["p1", "c1"], map["p1" := MasterAuthor("AB", "Ann Bee"), "c1" := MasterAuthor("CD", "Cy Dee")])

  lemma SampleScenarioBases()
    ensures BaseAbbreviation("Ann Bee") == "AB"
    ensures BaseAbbreviation("Cy Dee") == "CD"
  {
    AnnBeeBase();
    CyDeeBase();
  }

  lemma AnnBeeBase()
    ensures BaseAbbreviation("Ann Bee") == "AB"
  {
    TwoWordBase("Ann", "Bee");
    assert "Ann" + " " + "Bee" == "Ann Bee";
  }

  lemma CyDeeBase()
    ensures BaseAbbreviation("Cy Dee") == "CD"
  {
    TwoWordBase("Cy", "Dee");
    assert "Cy" + " " + "Dee" == "Cy Dee";
  }

  lemma SampleScenarioFlatten()
    ensures Flatten([Paper2020, Paper2019]) == [Ann, Cy, Ann]
  {
    assert [Paper2020, Paper2019][..1] == [Paper2020];
    assert [Paper2020][..0] == [];
    assert Flatten([Paper2020]) == [Ann, Cy];
    assert [Ann, Cy] + [Ann] == [Ann, Cy, Ann];
  }

  lemma SampleScenarioFirst()
    ensures RosterOf([Ann]) == AnnOnly
  {
    SampleScenarioBases();
    assert [Ann][..0] == [];
  }

  lemma SampleScenarioSecond()
    ensures AddAuthor(AnnOnly, Cy) == SampleRoster
  {
    SampleScenarioBases();
    assert forall id | id in AnnOnly.entries :: id == "p1";
    assert "CD" !in AnnOnly.AbbreviationSet();
    assert AddAuthor(AnnOnly, Cy) == AnnOnly.Put("c1", MasterAuthor("CD", "Cy Dee"));
    assert AnnOnly.entries["c1" := MasterAuthor("CD", "Cy Dee")] == SampleRoster.entries;
  }

  lemma SampleScenarioFirstTwo()
    ensures RosterOf([Ann, Cy]) == SampleRoster
  {
    SampleScenarioFirst();
    SampleScenarioSecond();
    assert [Ann, Cy][..1] == [Ann];
  }

  lemma SampleScenarioRoster()
    ensures BuildRoster([Paper2020, Paper2019]) == SampleRoster
  {
    SampleScenarioFlatten();
    SampleScenarioFirstTwo();
    assert [Ann, Cy, Ann][..2] == [Ann, Cy];
  }

  /** The protagonist is already first, so moving it to the front changes nothing. */
  lemma SampleScenarioFinalRoster()
    ensures FinalRoster([Paper2020, Paper2019], "p1") == SampleRoster
  {
    SampleScenarioRoster();
    assert Without(["p1", "c1"], "p1") == ["c1"] by {
      assert ["p1", "c1"][..1] == ["p1"];
      assert ["p1"][..0] == [];
    }
  }

  lemma SampleScenarioSorted()
    ensures SortBy([Paper2020, Paper2019], ByYear) == [Paper2019, Paper2020]
  {
    var pubs := [Paper2020, Paper2019];
    assert pubs[..1] == [Paper2020];
    assert [Paper2020][..0] == [];
    assert SortBy([Paper2020], ByYear) == [Paper2020];
    assert ByYear(Paper2020) > ByYear(Paper2019);
    assert InsertBy([Paper2020], Paper2019, ByYear) == [Paper2019, Paper2020];
  }

  lemma SampleYears()
    ensures IntToString(2019) == "2019" && IntToString(2020) == "2020"
  {
    assert NatToString(2) == "2";
    assert NatToString(20) == "20";
    assert NatToString(201) == "201" && NatToString(202) == "202";
    assert NatToString(2019) == "2019" && NatToString(2020) == "2020";
  }

  lemma SampleAbbreviations()
    ensures SampleRoster.Valid()
    ensures SampleRoster.Abbreviations() == ["AB", "CD"]
  {
    assert ["p1", "c1"][..1] == ["p1"];
    assert ["p1"][..0] == [];
  }

  lemma SamplePresentRaw()
    ensures PresentRaw(SampleRoster, [Ann]) == ["AB"]
    ensures PresentRaw(SampleRoster, [Ann, Cy]) == ["AB", "CD"]
  {
    assert [Ann][..0] == [];
    assert [Ann, Cy][..1] == [Ann];
  }

  lemma SamplePresent()
    ensures Present(SampleRoster, Paper2019) == ["AB"]
    ensures Present(SampleRoster, Paper2020) == ["AB", "CD"]
  {
    SamplePresentRaw();
    assert ["AB"][..0] == [];
    assert ["AB", "CD"][..1] == ["AB"];
  }

  lemma SampleMissing()
    ensures SampleRoster.Valid()
    ensures Missing(SampleRoster, ["AB"]) == ["CD"]
    ensures Missing(SampleRoster, ["AB", "CD"]) == []
  {
    SampleAbbreviations();
    assert ["p1", "c1"][..1] == ["p1"];
    assert ["p1"][..0] == [];
  }

  lemma SampleJoins()
    ensures Join(["AB", "CD"], ",") == "AB,CD"
    ensures Join(["AB"], ",") == "AB" && Join(["CD"], ";") == "CD"
  {
    assert ["AB", "CD"][1..] == ["CD"];
    assert "AB" + "," + "CD" == "AB,CD";
  }

  lemma SampleLineTexts()
    ensures "t" + "2019" + " : " + "AB" + (";" + "CD") + " : " + "AB,CD" == "t2019 : AB;CD : AB,CD"
    ensures "t" + "2020" + " : " + "AB,CD" + "" + " : " + "AB,CD" == "t2020 : AB,CD : AB,CD"
  {
    assert "t" + "2019" == "t2019" && "t" + "2020" == "t2020";
    assert "t2019" + " : " == "t2019 : " && "t2020" + " : " == "t2020 : ";
    assert "t2019 : " + "AB" == "t2019 : AB" && "t2020 : " + "AB,CD" == "t2020 : AB,CD";
    assert "t2019 : AB" + (";" + "CD") == "t2019 : AB;CD" && "t2020 : AB,CD" + "" == "t2020 : AB,CD";
    assert "t2019 : AB;CD" + " : " == "t2019 : AB;CD : " && "t2020 : AB,CD" + " : " == "t2020 : AB,CD : ";
    assert "t2019 : AB;CD : " + "AB,CD" == "t2019 : AB;CD : AB,CD";
    assert "t2020 : AB,CD : " + "AB,CD" == "t2020 : AB,CD : AB,CD";
  }

  lemma SampleLine2019()
    ensures SampleRoster.Valid()
    ensures PubLine(SampleRoster, Paper2019) == "t2019 : AB;CD : AB,CD"
  {
    SampleYears();
    SamplePresent();
    SampleMissing();
    SampleAbbreviations();
    SampleJoins();
    SampleLineTexts();
  }

  lemma SampleLine2020()
    ensures SampleRoster.Valid()
    ensures PubLine(SampleRoster, Paper2020) == "t2020 : AB,CD : AB,CD"
  {
    SampleYears();
    SamplePresent();
    SampleMissing();
    SampleAbbreviations();
    SampleJoins();
    SampleLineTexts();
  }

  lemma SamplePubLines()
    ensures SampleRoster.Valid()
    ensures PubLines(SampleRoster, [Paper2019, Paper2020]) == ["t2019 : AB;CD : AB,CD", "t2020 : AB,CD : AB,CD"]
  {
    SampleLine2019();
    SampleLine2020();
    PubLinesPair(SampleRoster, Paper2019, Paper2020);
  }

  lemma PubLinesPair(r: Roster, a: Publication, b: Publication)
    requires r.Valid()
    ensures PubLines(r, [a, b]) == [PubLine(r, a), PubLine(r, b)]
  {
  }

  /**
   * The whole scenario: the roster is AB (protagonist) then CD, and the
   * publication lines come out in year order, the absent coauthor of 2019
   * listed after `;`.
   */
  lemma SampleScenario(meta: Option<Meta>)
    ensures var out := MasterfileLines([Paper2020, Paper2019], "p1", meta);
            |out| >= 2 && out[|out| - 2..] == ["t2019 : AB;CD : AB,CD", "t2020 : AB,CD : AB,CD"]
  {
    var pubs := [Paper2020, Paper2019];
    SampleScenarioFinalRoster();
    SampleScenarioSorted();
    SamplePubLines();
    MasterfileLayout(pubs, "p1", meta);
  }

  // ------------------------------------------------------------------ the service

  class MasterfileGenerator {
    /** The `masterAuthors` dictionary. */
    var masterAuthors: Roster

    constructor ()
      ensures masterAuthors == EmptyRoster
    {
      masterAuthors := EmptyRoster;
    }

    /** `generateAbbreviation`: a code not used by any current entry. */
    method GenerateAbbreviation(fullName: string) returns (abbr: string)
      ensures abbr == Abbreviate(BaseAbbreviation(fullName), masterAuthors.AbbreviationSet())
    {
      var base := BaseAbbreviation(fullName);
      var existing := masterAuthors.AbbreviationSet();
      if base !in existing {
        return base;
      }
      var suffix := 1;
      var attempt := base + NatToString(suffix);
      while attempt in existing
        invariant 1 <= suffix
        invariant attempt == base + NatToString(suffix)
        invariant forall j :: 1 <= j < suffix ==> base + NatToString(j) in existing
        decreases |existing| + 1 - suffix
      {
        TakenSuffixesBound(base, existing, suffix);
        suffix := suffix + 1;
        attempt := base + NatToString(suffix);
      }
      assert FirstFreeSuffix(base, existing, 1) == suffix;
      abbr := attempt;
    }

    /** The inner roster loop: the authors of one publication, in order. */
    method AddAuthors(ghost seen: seq<Author>, authors: seq<Author>)
      requires masterAuthors == RosterOf(seen)
      modifies this
      ensures masterAuthors == RosterOf(seen + authors)
    {
      assert seen + authors[..0] == seen;
      for k := 0 to |authors|
        invariant masterAuthors == RosterOf(seen + authors[..k])
      {
        var author := authors[k];
        ghost var next := AddAuthor(masterAuthors, author);
        if author.id !in masterAuthors.entries {
          var abbr := GenerateAbbreviation(author.name);
          masterAuthors := masterAuthors.Put(author.id, MasterAuthor(abbr, author.name));
        }
        assert masterAuthors == next;
        RosterOfPrefixStep(seen, authors, k);
      }
      assert authors[..|authors|] == authors;
    }

    /** The roster loop of `generateMasterfileLines`: every unseen author id gets an entry. */
    method BuildMasterAuthors(publications: array<Publication>)
      modifies this
      ensures masterAuthors == BuildRoster(publications[..])
    {
      ghost var pubs := publications[..];
      masterAuthors := EmptyRoster;
      for p := 0 to publications.Length
        invariant masterAuthors == RosterOf(Flatten(pubs[..p]))
      {
        AddAuthors(Flatten(pubs[..p]), publications[p].authors);
        FlattenSnoc(pubs, p);
      }
      assert pubs[..publications.Length] == pubs;
    }

    /** The line of one publication, against the current roster. */
    method PublicationLine(pub: Publication) returns (line: string)
      requires masterAuthors.Valid()
      ensures line == PubLine(masterAuthors, pub)
    {
      var timestamp := "t" + IntToString(pub.year);
      var present: seq<string> := [];
      for k := 0 to |pub.authors|
        invariant present == PresentRaw(masterAuthors, pub.authors[..k])
      {
        var author := pub.authors[k];
        if author.id in masterAuthors.entries {
          present := present + [masterAuthors.entries[author.id].abbreviation];
        }
        assert pub.authors[..k + 1][..k] == pub.authors[..k];
      }
      assert pub.authors[..|pub.authors|] == pub.authors;
      present := Dedup(present);
      var missing := MissingFrom(masterAuthors, masterAuthors.order, present);
      var allAuthors := masterAuthors.Abbreviations();
      line := timestamp + " : " + Join(present, ",")
        + (if |missing| > 0 then ";" + Join(missing, ";") else "")
        + " : " + Join(allAuthors, ",");
    }

    /** The header: banner, main author, optional statistics, roster, protagonist. */
    method Header(mainAuthorId: string, meta: Option<Meta>) returns (headerLines: seq<string>)
      requires masterAuthors.Valid() && mainAuthorId in masterAuthors.entries
      ensures headerLines == HeaderLines(masterAuthors, mainAuthorId, meta)
    {
      headerLines := [Banner, MainAuthorLine(masterAuthors.entries[mainAuthorId].fullName)];
      if meta.Some? {
        headerLines := headerLines + MetaLines(meta.value);
      }
      var roster := Roster();
      headerLines := headerLines + roster;
      headerLines := headerLines + ["", ProtagonistLine(masterAuthors.entries[mainAuthorId].abbreviation), ""];
    }

    /** The roster loop of the header: one line per master author, in roster order. */
    method Roster() returns (lines: seq<string>)
      requires masterAuthors.Valid()
      ensures lines == RosterLines(masterAuthors, masterAuthors.order)
    {
      var masterOrder := masterAuthors.order;
      lines := [];
      for j := 0 to |masterOrder|
        invariant lines == RosterLines(masterAuthors, masterOrder[..j])
      {
        RosterLinesPrefix(masterAuthors, masterOrder, j);
        lines := lines + [RosterLine(masterAuthors.entries[masterOrder[j]])];
      }
      assert masterOrder[..|masterOrder|] == masterOrder;
    }

    /** `{ [id]: protagonist, ...masterAuthors }` after `delete masterAuthors[id]`. */
    method MoveProtagonistToFront(mainAuthorId: string)
      requires masterAuthors.Valid() && mainAuthorId in masterAuthors.entries
      modifies this
      ensures masterAuthors == MoveToFront(old(masterAuthors), mainAuthorId)
    {
      var protagonist := masterAuthors.entries[mainAuthorId];
      masterAuthors := masterAuthors.Delete(mainAuthorId);
      masterAuthors := masterAuthors.Prepend(mainAuthorId, protagonist);
    }

    /** The publication loop: one line per publication, in array order. */
    method PublicationLines(publications: array<Publication>) returns (lines: seq<string>)
      requires masterAuthors.Valid()
      ensures lines == PubLines(masterAuthors, publications[..])
    {
      lines := [];
      for i := 0 to publications.Length
        invariant lines == PubLines(masterAuthors, publications[..i])
      {
        var pubLine := PublicationLine(publications[i]);
        lines := lines + [pubLine];
        assert publications[..i + 1][..i] == publications[..i];
      }
      assert publications[..publications.Length] == publications[..];
    }

    /** `generateMasterfileLines`: the roster is rebuilt and `publications` is sorted in place. */
    method GenerateMasterfileLines(publications: array<Publication>, mainAuthorId: string, meta: Option<Meta>)
      returns (result: seq<string>)
      modifies this, publications
      ensures result == MasterfileLines(old(publications[..]), mainAuthorId, meta)
      ensures mainAuthorId in BuildRoster(old(publications[..])).entries ==>
                && masterAuthors == FinalRoster(old(publications[..]), mainAuthorId)
                && publications[..] == SortBy(old(publications[..]), ByYear)
      ensures mainAuthorId !in BuildRoster(old(publications[..])).entries ==>
                && masterAuthors == BuildRoster(old(publications[..]))
                && publications[..] == old(publications[..])
    {
      ghost var pubs := publications[..];
      BuildMasterAuthors(publications);
      if mainAuthorId !in masterAuthors.entries {
        // the source logs an error and returns the still empty line list
        return [];
      }
      RosterOfSpec(Flatten(pubs));
      MoveToFrontSpec(masterAuthors, mainAuthorId);
      MoveProtagonistToFront(mainAuthorId);
      SortInPlace(publications, ByYear);
      var lines := PublicationLines(publications);
      var headerLines := Header(mainAuthorId, meta);
      result := headerLines + lines;
    }
  }
}
