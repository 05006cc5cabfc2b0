/**
 * The adapter (`MasterfileAdapterService`): turns the rows of the
 * publication query into the encoder's publications (the protagonist
 * first, then the `|`-separated coauthors of the row), collects the
 * statistics that go with a masterfile and hands both to the encoder.
 *
 * Strengths are reals (rationals), not floating point. The clock value,
 * the JSON rendering of the filters and `toFixed(2)` come in as parameters.
 */
module MasterfileAdapter {
  import opened Wrappers
  import opened Text
  import opened MasterfileGenerator
  import DblpSparql

  /**
   * One result row of the publication query, together with the six
   * per-row strength summaries the adapter reads from it.
   */
  datatype Row = Row(
    pub: string,
    title: string,
    year: int,
    kind: string,
    coauthors: string,
    coauthorIds: string,
    coCount: int,
    avgInSet: real,
    minInSet: real,
    maxInSet: real,
    avgGlobal: real,
    minGlobal: real,
    maxGlobal: real)

  /** The `{ id, name }` pair naming the author the masterfile is about. */
  datatype Protagonist = Protagonist(id: string, name: string)

  /** The person-IRI prefix the query builder also uses. */
  const PidPrefix := DblpSparql.PidPrefix

  // ------------------------------------------------------------------ rows to publications

  /** `s ? s.split('|') : []`: the empty string has no pieces at all. */
  function Pieces(s: string): (r: seq<string>)
    ensures s == "" <==> r == []
  {
    if s == "" then [] else Split(s, '|')
  }

  /** Joining the pieces with `|` gives the field back, and no piece holds a `|`. */
  lemma PiecesJoin(s: string)
    ensures Join(Pieces(s), "|") == s
    ensures forall i :: 0 <= i < |Pieces(s)| ==> '|' !in Pieces(s)[i]
  {
    if s != "" {
      JoinSplit(s, '|');
      SplitPiecesFree(s, '|');
    }
  }

  /** `iri.replace('https://dblp.org/pid/', '')`: the first occurrence of the prefix goes. */
  function StripPid(iri: string): string {
    ReplaceFirst(iri, PidPrefix, "")
  }

  /** A person IRI gives back its pid. */
  lemma StripPidOfIri(pid: string)
    ensures StripPid(PidPrefix + pid) == pid
  {
    ReplaceFirstAtStart(PidPrefix, pid);
  }

  /** A value without the prefix (a bare name, say) is kept as it is. */
  lemma StripPidPlain(s: string)
    requires !Contains(s, PidPrefix)
    ensures StripPid(s) == s
  {
    ReplaceFirstAbsent(s, PidPrefix, "");
  }

  /** The `i`-th coauthor: the id from the `i`-th IRI, or from the name when the IRIs run out. */
  function Coauthor(names: seq<string>, iris: seq<string>, i: nat): Author
    requires i < |names|
  {
    Author(StripPid(if i < |iris| then iris[i] else names[i]), names[i])
  }

  /** The publication for one row: its year, the protagonist, then the coauthors in order. */
  function ToPublication(p: Protagonist, r: Row): Publication {
    var names := Pieces(r.coauthors);
    var iris := Pieces(r.coauthorIds);
    Publication(r.year, [Author(p.id, p.name)] + seq(|names|, i requires 0 <= i < |names| => Coauthor(names, iris, i)))
  }

  /** `sparqlRows.map(...)`: one publication per row, in row order. */
  function Publications(p: Protagonist, rows: seq<Row>): seq<Publication> {
    seq(|rows|, i requires 0 <= i < |rows| => ToPublication(p, rows[i]))
  }

  /** The names of a list of authors. */
  function Names(authors: seq<Author>): seq<string> {
    seq(|authors|, i requires 0 <= i < |authors| => authors[i].name)
  }

  /**
   * A row's publication keeps the year, starts with the protagonist, and
   * its coauthor names joined by `|` are the row's `coauthors` field.
   * Each coauthor id is the stripped IRI at the same position, or the
   * stripped name where there is no IRI.
   */
  lemma ToPublicationSpec(p: Protagonist, r: Row)
    ensures ToPublication(p, r).year == r.year
    ensures ToPublication(p, r).authors[0] == Author(p.id, p.name)
    ensures Names(ToPublication(p, r).authors[1..]) == Pieces(r.coauthors)
    ensures Join(Names(ToPublication(p, r).authors[1..]), "|") == r.coauthors
    ensures forall j :: 1 <= j < |ToPublication(p, r).authors| && j <= |Pieces(r.coauthorIds)| ==>
              ToPublication(p, r).authors[j].id == StripPid(Pieces(r.coauthorIds)[j - 1])
    ensures forall j :: 1 <= j < |ToPublication(p, r).authors| && j > |Pieces(r.coauthorIds)| ==>
              ToPublication(p, r).authors[j].id == StripPid(ToPublication(p, r).authors[j].name)
  {
    var names := Pieces(r.coauthors);
    var authors := ToPublication(p, r).authors;
    PiecesJoin(r.coauthors);
    CoauthorsAt(p, r);
    assert Names(authors[1..]) == names;
  }

  /** Position `j` of a row's publication holds the coauthor built from piece `j - 1`. */
  lemma CoauthorsAt(p: Protagonist, r: Row)
    ensures |ToPublication(p, r).authors| == |Pieces(r.coauthors)| + 1
    ensures forall j :: 1 <= j < |ToPublication(p, r).authors| ==>
              ToPublication(p, r).authors[j] == Coauthor(Pieces(r.coauthors), Pieces(r.coauthorIds), j - 1)
  {
  }

  // ------------------------------------------------------------------ distinct coauthors

  /** The raw coauthor IRIs of all rows, row by row. */
  function AllCoauthorIds(rows: seq<Row>): seq<string> {
    if rows == [] then [] else AllCoauthorIds(rows[..|rows| - 1]) + Pieces(rows[|rows| - 1].coauthorIds)
  }

  /** Some row lists `id` among its coauthor IRIs. */
  ghost predicate InSomeRow(rows: seq<Row>, id: string) {
    exists i :: 0 <= i < |rows| && id in Pieces(rows[i].coauthorIds)
  }

  lemma AllCoauthorIdsSnoc(rows: seq<Row>)
    requires rows != []
    ensures AllCoauthorIds(rows) == AllCoauthorIds(rows[..|rows| - 1]) + Pieces(rows[|rows| - 1].coauthorIds)
  {
  }

  lemma {:induction false} AllCoauthorIdsSound(rows: seq<Row>, id: string)
    ensures id in AllCoauthorIds(rows) ==> InSomeRow(rows, id)
  {
    if rows != [] && id in AllCoauthorIds(rows) {
      var n := |rows| - 1;
      var init := rows[..n];
      AllCoauthorIdsSnoc(rows);
      if id in AllCoauthorIds(init) {
        AllCoauthorIdsSound(init, id);
        var i :| 0 <= i < |init| && id in Pieces(init[i].coauthorIds);
        assert rows[i] == init[i];
      } else {
        assert id in Pieces(rows[n].coauthorIds);
      }
    }
  }

  /** The IRIs of row `i` are among the coauthor IRIs. */
  lemma {:induction false} RowIdsIncluded(rows: seq<Row>, i: nat, id: string)
    requires i < |rows| && id in Pieces(rows[i].coauthorIds)
    ensures id in AllCoauthorIds(rows)
  {
    var n := |rows| - 1;
    var init, last := rows[..n], Pieces(rows[n].coauthorIds);
    AllCoauthorIdsSnoc(rows);
    assert AllCoauthorIds(rows) == AllCoauthorIds(init) + last;
    InConcat(AllCoauthorIds(init), last, id);
    if i < n {
      assert init[i] == rows[i];
      RowIdsIncluded(init, i, id);
    }
  }

  lemma InConcat(a: seq<string>, b: seq<string>, x: string)
    ensures x in a + b <==> x in a || x in b
  {
  }

  lemma AllCoauthorIdsComplete(rows: seq<Row>, id: string)
    ensures InSomeRow(rows, id) ==> id in AllCoauthorIds(rows)
  {
    if InSomeRow(rows, id) {
      var i :| 0 <= i < |rows| && id in Pieces(rows[i].coauthorIds);
      RowIdsIncluded(rows, i, id);
    }
  }

  /** An IRI is among the coauthor IRIs exactly when some row lists it. */
  lemma AllCoauthorIdsSpec(rows: seq<Row>, id: string)
    ensures id in AllCoauthorIds(rows) <==> InSomeRow(rows, id)
  {
    AllCoauthorIdsSound(rows, id);
    AllCoauthorIdsComplete(rows, id);
  }

  /** A set of strings has as many elements as the de-duplicated list of them. */
  lemma SetSizeIsDedupLength(s: seq<string>)
    ensures |Elements(s)| == |Dedup(s)|
  {
    DedupSpec(s);
    DistinctCard(Dedup(s));
    assert Elements(s) == set x | x in Dedup(s);
  }

  /**
   * The `distinctCoauthors` set: every raw IRI of every row, once. Its size
   * is the number of distinct IRIs in first-occurrence order.
   */
  method DistinctCoauthorIds(rows: seq<Row>) returns (ids: set<string>)
    ensures forall id :: id in ids <==> InSomeRow(rows, id)
    ensures |ids| == |Dedup(AllCoauthorIds(rows))|
  {
    ids := {};
    for i := 0 to |rows|
      invariant ids == Elements(AllCoauthorIds(rows[..i]))
    {
      var rowIds := Pieces(rows[i].coauthorIds);
      ghost var before := ids;
      for j := 0 to |rowIds|
        invariant ids == before + Elements(rowIds[..j])
      {
        ids := ids + {rowIds[j]};
        ElementsSnoc(rowIds, j);
      }
      assert rowIds[..|rowIds|] == rowIds;
      ElementsNextRow(rows, i);
    }
    assert rows[..|rows|] == rows;
    forall id ensures id in ids <==> InSomeRow(rows, id) {
      AllCoauthorIdsSpec(rows, id);
    }
    SetSizeIsDedupLength(AllCoauthorIds(rows));
  }

  /** The set of the list's elements. */
  ghost function Elements(xs: seq<string>): set<string> {
    set x | x in xs
  }

  lemma ElementsSnoc(xs: seq<string>, j: nat)
    requires j < |xs|
    ensures Elements(xs[..j + 1]) == Elements(xs[..j]) + {xs[j]}
  {
    assert xs[..j + 1] == xs[..j] + [xs[j]];
  }

  lemma ElementsNextRow(rows: seq<Row>, i: nat)
    requires i < |rows|
    ensures Elements(AllCoauthorIds(rows[..i + 1]))
         == Elements(AllCoauthorIds(rows[..i])) + Elements(Pieces(rows[i].coauthorIds))
  {
    AllCoauthorIdsSnoc(rows[..i + 1]);
    assert rows[..i + 1][..i] == rows[..i];
  }

  // ------------------------------------------------------------------ averages

  /** `xs.reduce((a, b) => a + b, 0)`, folding from the left. */
  function Sum(xs: seq<real>): real {
    if xs == [] then 0.0 else Sum(xs[..|xs| - 1]) + xs[|xs| - 1]
  }

  /** `average`: 0 for no values, otherwise the sum divided by the count. */
  function Average(xs: seq<real>): (avg: real)
    ensures |xs| == 0 ==> avg == 0.0
    ensures |xs| > 0 ==> avg * |xs| as real == Sum(xs)
  {
    if |xs| == 0 then 0.0 else Sum(xs) / |xs| as real
  }

  lemma {:induction false} SumBounds(xs: seq<real>, lo: real, hi: real)
    requires forall i :: 0 <= i < |xs| ==> lo <= xs[i] <= hi
    ensures lo * |xs| as real <= Sum(xs) <= hi * |xs| as real
  {
    if xs != [] {
      var init := xs[..|xs| - 1];
      SumBounds(init, lo, hi);
      assert lo * |xs| as real == lo * |init| as real + lo;
      assert hi * |xs| as real == hi * |init| as real + hi;
    }
  }

  /** The average lies between any lower and upper bound of the values. */
  lemma AverageBounds(xs: seq<real>, lo: real, hi: real)
    requires |xs| > 0
    requires forall i :: 0 <= i < |xs| ==> lo <= xs[i] <= hi
    ensures lo <= Average(xs) <= hi
  {
    SumBounds(xs, lo, hi);
    var n := |xs| as real;
    var avg := Average(xs);
    assert (avg - lo) * n >= 0.0;
    assert (hi - avg) * n >= 0.0;
  }

  /** `sparqlRows.map(r => r.avgCoauthorStrengthInSet)`. */
  function InSetAverages(rows: seq<Row>): seq<real> {
    seq(|rows|, i requires 0 <= i < |rows| => rows[i].avgInSet)
  }

  /** `sparqlRows.map(r => r.avgCoauthorStrengthGlobal)`. */
  function GlobalAverages(rows: seq<Row>): seq<real> {
    seq(|rows|, i requires 0 <= i < |rows| => rows[i].avgGlobal)
  }

  // ------------------------------------------------------------------ grouping

  /**
   * `Object.fromEntries(m.entries())` for a `Map<string, number>`: the keys
   * in insertion order and the count of each.
   */
  datatype Tally = Tally(order: seq<string>, counts: map<string, int>)
  {
    ghost predicate Valid() {
      forall k :: k in order <==> k in counts
    }

    /** `Object.entries(...)`: the pairs in key order. */
    function Entries(): seq<(string, int)>
      requires Valid()
    {
      seq(|order|, i requires 0 <= i < |order| => (order[i], counts[order[i]]))
    }
  }

  /** The key of each row, in row order. */
  function Keys<T>(rows: seq<T>, key: T -> string): seq<string> {
    seq(|rows|, i requires 0 <= i < |rows| => key(rows[i]))
  }

  /** Each key, in first-occurrence order, with the number of times it occurs. */
  function TallyOf(keys: seq<string>): Tally {
    Tally(Dedup(keys), map k | k in keys :: multiset(keys)[k])
  }

  /** `t` counts the occurrences of each key of `keys`, keys in first-occurrence order. */
  ghost predicate Counts(t: Tally, keys: seq<string>) {
    && t.order == Dedup(keys)
    && (forall k :: k in t.counts <==> k in keys)
    && (forall k :: k in t.counts ==> t.counts[k] == multiset(keys)[k])
  }

  lemma CountsTallyOf(t: Tally, keys: seq<string>)
    requires Counts(t, keys)
    ensures t == TallyOf(keys)
  {
    assert t.counts == TallyOf(keys).counts;
  }

  lemma KeysPrefix<T>(rows: seq<T>, key: T -> string, i: nat)
    requires i < |rows|
    ensures Keys(rows[..i + 1], key) == Keys(rows[..i], key) + [key(rows[i])]
  {
  }

  lemma DedupSnoc(keys: seq<string>, k: string)
    ensures Dedup(keys + [k]) == if k in keys then Dedup(keys) else Dedup(keys) + [k]
  {
    DedupSpec(keys);
    assert (keys + [k])[..|keys|] == keys;
  }

  lemma MultisetSnoc(keys: seq<string>, k: string, x: string)
    ensures multiset(keys + [k])[x] == multiset(keys)[x] + (if x == k then 1 else 0)
  {
    assert multiset(keys + [k]) == multiset(keys) + multiset{k};
  }

  /** The counter map after one more row with key `k`. */
  function Bump(counts: map<string, int>, k: string): map<string, int> {
    counts[k := if k in counts then counts[k] + 1 else 1]
  }

  lemma BumpKeys(counts: map<string, int>, keys: seq<string>, k: string)
    requires forall x :: x in counts <==> x in keys
    ensures forall x :: x in Bump(counts, k) <==> x in keys + [k]
  {
    forall x ensures x in Bump(counts, k) <==> x in keys + [k] {
      assert x in keys + [k] <==> x in keys || x == k;
    }
  }

  lemma BumpValues(counts: map<string, int>, keys: seq<string>, k: string)
    requires forall x :: x in counts <==> x in keys
    requires forall x :: x in counts ==> counts[x] == multiset(keys)[x]
    ensures forall x :: x in Bump(counts, k) ==> Bump(counts, k)[x] == multiset(keys + [k])[x]
  {
    forall x | x in Bump(counts, k) ensures Bump(counts, k)[x] == multiset(keys + [k])[x] {
      MultisetSnoc(keys, k, x);
    }
  }

  /** One more row: its key's counter goes up by one, a new key is appended. */
  lemma CountsStep(t: Tally, keys: seq<string>, k: string)
    requires Counts(t, keys)
    ensures Counts(Tally(if k in t.counts then t.order else t.order + [k], Bump(t.counts, k)), keys + [k])
  {
    DedupSnoc(keys, k);
    BumpKeys(t.counts, keys, k);
    BumpValues(t.counts, keys, k);
    assert (k in t.counts) == (k in keys);
  }

  /** `groupCount(rows, key)`: one counter per key, bumped once per row. */
  method GroupCount<T>(rows: seq<T>, key: T -> string) returns (t: Tally)
    ensures t.order == Dedup(Keys(rows, key))
    ensures forall k :: k in t.counts <==> k in Keys(rows, key)
    ensures forall k :: k in t.counts ==> t.counts[k] == multiset(Keys(rows, key))[k]
  {
    t := Tally([], map[]);
    for i := 0 to |rows|
      invariant Counts(t, Keys(rows[..i], key))
    {
      var k := key(rows[i]);
      CountsStep(t, Keys(rows[..i], key), k);
      KeysPrefix(rows, key, i);
      t := Tally(if k in t.counts then t.order else t.order + [k], Bump(t.counts, k));
    }
    assert rows[..|rows|] == rows;
  }

  /** The sum of the counts of the keys `ks`. */
  function CountSum(ks: seq<string>, m: multiset<string>): int {
    if ks == [] then 0 else CountSum(ks[..|ks| - 1], m) + m[ks[|ks| - 1]]
  }

  lemma {:induction false} CountSumAdd(ks: seq<string>, m: multiset<string>, x: string)
    requires Distinct(ks)
    ensures CountSum(ks, m + multiset{x}) == CountSum(ks, m) + (if x in ks then 1 else 0)
  {
    if ks != [] {
      var init := ks[..|ks| - 1];
      assert Distinct(init);
      CountSumAdd(init, m, x);
      assert x in ks <==> x in init || x == ks[|ks| - 1];
      assert x == ks[|ks| - 1] ==> x !in init;
    }
  }

  lemma {:induction false} CountSumDedup(keys: seq<string>)
    ensures CountSum(Dedup(keys), multiset(keys)) == |keys|
  {
    if keys != [] {
      var init, x := keys[..|keys| - 1], keys[|keys| - 1];
      assert keys == init + [x];
      CountSumDedup(init);
      DedupSpec(init);
      CountSumAdd(Dedup(init), multiset(init), x);
      if x !in Dedup(init) {
        assert multiset(init)[x] == 0;
      }
    }
  }

  /**
   * The tally is well formed, names exactly the keys that occur, counts
   * each at least once, and its counts add up to the number of rows.
   */
  lemma TallyOfSpec(keys: seq<string>)
    ensures TallyOf(keys).Valid()
    ensures forall k :: k in TallyOf(keys).counts <==> k in keys
    ensures forall k :: k in TallyOf(keys).counts ==> TallyOf(keys).counts[k] >= 1
    ensures Distinct(TallyOf(keys).order)
    ensures CountSum(TallyOf(keys).order, multiset(keys)) == |keys|
  {
    DedupSpec(keys);
    CountSumDedup(keys);
  }

  // ------------------------------------------------------------------ the build

  /** One `perPaper` entry: the row's fields without its coauthor lists. */
  datatype PaperStats = PaperStats(
    pub: string,
    title: string,
    year: int,
    kind: string,
    coCount: int,
    avgInSet: real,
    minInSet: real,
    maxInSet: real,
    avgGlobal: real,
    minGlobal: real,
    maxGlobal: real)

  function PaperStatsOf(r: Row): PaperStats {
    PaperStats(r.pub, r.title, r.year, r.kind, r.coCount,
      r.avgInSet, r.minInSet, r.maxInSet, r.avgGlobal, r.minGlobal, r.maxGlobal)
  }

  function PerPaper(rows: seq<Row>): seq<PaperStats> {
    seq(|rows|, i requires 0 <= i < |rows| => PaperStatsOf(rows[i]))
  }

  /** The `stats` object of the build. */
  datatype Stats = Stats(
    publications: int,
    byType: Tally,
    distinctCoauthorsInSet: int,
    avgInSetOverall: real,
    avgGlobalOverall: real)

  /** The `meta` object of the build; `filtersJson` is the rendered filter record. */
  datatype BuildMeta = BuildMeta(
    generatedAt: string,
    protagonist: Protagonist,
    filtersJson: string,
    stats: Stats,
    perPaper: seq<PaperStats>)

  datatype MasterfileBuild = MasterfileBuild(lines: seq<string>, meta: BuildMeta)

  function RowKind(r: Row): string {
    r.kind
  }

  /** The meta object `toMasterfile` assembles from the rows. */
  function BuildMetaOf(rows: seq<Row>, p: Protagonist, filtersJson: string, generatedAt: string): BuildMeta {
    BuildMeta(generatedAt, p, filtersJson,
      Stats(|rows|, TallyOf(Keys(rows, RowKind)), |set x | x in AllCoauthorIds(rows)|,
        Average(InSetAverages(rows)), Average(GlobalAverages(rows))),
      PerPaper(rows))
  }

  /**
   * What the encoder reads from that object. It looks for `stats.papers`
   * and `stats.distinctCoauthors`, which the adapter does not set, so both
   * are absent; the averages pass through `toFixed(2)`.
   */
  function EncoderMeta(m: BuildMeta, toFixed2: real -> string): Meta
    requires m.stats.byType.Valid()
  {
    Meta(m.generatedAt, m.filtersJson, None, None,
      toFixed2(m.stats.avgInSetOverall), toFixed2(m.stats.avgGlobalOverall), m.stats.byType.Entries())
  }

  /**
   * The statistics agree with the rows: one publication and one `perPaper`
   * entry per row, aligned with the encoder's publications by year; the
   * type counts add up to the row count; the distinct coauthor count is the
   * number of distinct raw IRIs.
   */
  lemma BuildMetaSpec(rows: seq<Row>, p: Protagonist, filtersJson: string, generatedAt: string)
    ensures var m := BuildMetaOf(rows, p, filtersJson, generatedAt);
      && m.stats.publications == |rows| == |m.perPaper| == |Publications(p, rows)|
      && (forall i :: 0 <= i < |rows| ==> m.perPaper[i] == PaperStatsOf(rows[i]))
      && (forall i :: 0 <= i < |rows| ==> m.perPaper[i].year == Publications(p, rows)[i].year)
      && m.stats.byType.Valid()
      && CountSum(m.stats.byType.order, multiset(Keys(rows, RowKind))) == |rows|
      && m.stats.distinctCoauthorsInSet == |Dedup(AllCoauthorIds(rows))|
  {
    TallyOfSpec(Keys(rows, RowKind));
    SetSizeIsDedupLength(AllCoauthorIds(rows));
  }

  /**
   * The encoder reads neither count, so its statistics line says
   * `undefined` twice.
   */
  lemma PapersLineUndefined(m: BuildMeta, toFixed2: real -> string)
    requires m.stats.byType.Valid()
    ensures EncoderMeta(m, toFixed2).papers == None && EncoderMeta(m, toFixed2).distinctCoauthors == None
    ensures MetaLines(EncoderMeta(m, toFixed2))[2] == "* Papers: undefined" + ", Distinct coauthors: undefined"
  {
  }

  lemma {:induction false} FlattenStart(pubs: seq<Publication>)
    requires pubs != [] && pubs[0].authors != []
    ensures Flatten(pubs) != [] && Flatten(pubs)[0] == pubs[0].authors[0]
  {
    if |pubs| > 1 {
      FlattenStart(pubs[..|pubs| - 1]);
    }
  }

  /**
   * The protagonist is an author of every publication, so the masterfile is
   * empty exactly when there are no rows.
   */
  lemma AdapterLinesEmptyIff(p: Protagonist, rows: seq<Row>, meta: Option<Meta>)
    ensures MasterfileLines(Publications(p, rows), p.id, meta) == [] <==> rows == []
  {
    var pubs := Publications(p, rows);
    MasterfileEmptyIff(pubs, p.id, meta);
    if rows != [] {
      assert pubs[0].authors[0] == Author(p.id, p.name);
      assert pubs[0].authors[0] in pubs[0].authors;
    } else {
      assert pubs == [];
    }
  }

  /** The first author the roster loop meets is the protagonist of the first row. */
  lemma FirstAuthorIsProtagonist(p: Protagonist, rows: seq<Row>)
    requires rows != []
    ensures Flatten(Publications(p, rows)) != []
    ensures Ids(Flatten(Publications(p, rows)))[0] == p.id
    ensures Flatten(Publications(p, rows))[0].name == p.name
  {
    var pubs := Publications(p, rows);
    assert pubs[0].authors[0] == Author(p.id, p.name);
    FlattenStart(pubs);
  }

  /** With at least one row, the protagonist heads the roster under the name it was given. */
  lemma AdapterProtagonistFirst(p: Protagonist, rows: seq<Row>)
    requires rows != []
    ensures p.id in BuildRoster(Publications(p, rows)).entries
    ensures FinalRoster(Publications(p, rows), p.id).order[0] == p.id
    ensures FinalRoster(Publications(p, rows), p.id).entries[p.id].fullName == p.name
  {
    var pubs := Publications(p, rows);
    var all := Flatten(pubs);
    FirstAuthorIsProtagonist(p, rows);
    RosterOfNames(all);
    RosterOfSpec(all);
    assert p.id in Ids(all);
    assert IndexOf(Ids(all), p.id) == 0;
    MoveToFrontSpec(BuildRoster(pubs), p.id);
  }

  /** The `meta` object of `toMasterfile`, gathered from the rows. */
  method CollectMeta(rows: seq<Row>, p: Protagonist, filtersJson: string, generatedAt: string)
    returns (meta: BuildMeta)
    ensures meta == BuildMetaOf(rows, p, filtersJson, generatedAt)
  {
    var distinct := DistinctCoauthorIds(rows);
    forall id ensures id in distinct <==> id in AllCoauthorIds(rows) {
      AllCoauthorIdsSpec(rows, id);
    }
    assert distinct == set x | x in AllCoauthorIds(rows);
    var byType := GroupCount(rows, RowKind);
    CountsTallyOf(byType, Keys(rows, RowKind));
    meta := BuildMeta(generatedAt, p, filtersJson,
      Stats(|rows|, byType, |distinct|, Average(InSetAverages(rows)), Average(GlobalAverages(rows))),
      PerPaper(rows));
  }

  /**
   * `toMasterfile`: maps the rows, gathers the statistics, and lets the
   * encoder write the lines for a fresh array of the publications.
   */
  method ToMasterfile(generator: MasterfileGenerator, rows: seq<Row>, p: Protagonist,
                      filtersJson: string, generatedAt: string, toFixed2: real -> string)
    returns (b: MasterfileBuild)
    modifies generator
    ensures b.meta == BuildMetaOf(rows, p, filtersJson, generatedAt)
    ensures b.meta.stats.byType.Valid()
    ensures b.lines == MasterfileLines(Publications(p, rows), p.id, Some(EncoderMeta(b.meta, toFixed2)))
  {
    var pubs := Publications(p, rows);
    var meta := CollectMeta(rows, p, filtersJson, generatedAt);
    TallyOfSpec(Keys(rows, RowKind));
    var publications := new Publication[|pubs|](i requires 0 <= i < |pubs| => pubs[i]);
    assert publications[..] == pubs;
    var lines := generator.GenerateMasterfileLines(publications, p.id, Some(EncoderMeta(meta, toFixed2)));
    b := MasterfileBuild(lines, meta);
  }
}
